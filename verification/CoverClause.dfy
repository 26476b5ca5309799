/** Trying to eliminate one clause as covered. */
module CoverClause {
  import opened Cnf
  import opened Lists
  import opened Extension
  import opened Reconstruction
  import opened InternalSolver
  import opened CoverSteps
  import opened Covering
  import opened CoverSettled
  import opened P = Propagation
  import B = Blocking

  /** The clauses as the watch lists see them: all irredundant ones, with the same literals,
      size zero for garbage. */
  ghost predicate Mirrors(mem: Memory, cs: seq<ClauseRecord>) {
    forall r :: r in mem ==>
      && 0 <= r < |cs| && !cs[r].redundant && Lits(mem[r].lits) == Lits(cs[r].lits)
      && (cs[r].garbage <==> mem[r].size == 0)
  }

  // ---------------------------------------------------------------- the intersection

  /** The candidates among the listed clauses leave exactly these literals. */
  ghost predicate Intersects(cs: seq<ClauseRecord>, os: seq<int>, lit: int, vals: set<int>, intersection: seq<int>) {
    && (forall x :: x in intersection <==> InAll(cs, os, lit, vals, x))
    && (forall i, j :: 0 <= i < j < |intersection| ==> intersection[i] != intersection[j])
  }

  lemma CandidateStep(cs: seq<ClauseRecord>, os: seq<int>, lit: int, vals: set<int>, k: nat)
    requires k < |os| && 0 <= os[k] < |cs|
    ensures var more := IsCandidate(cs, os, lit, vals, os[k]);
            && (HasCandidate(cs, os[..k + 1], lit, vals) <==> HasCandidate(cs, os[..k], lit, vals) || more)
            && forall x :: InAll(cs, os[..k + 1], lit, vals, x)
                           <==> InAll(cs, os[..k], lit, vals, x) && (more ==> FreeIn(cs[os[k]].lits, lit, vals, x))
  {
    var more := IsCandidate(cs, os, lit, vals, os[k]);
    assert os[..k + 1] == os[..k] + [os[k]];
    forall i
      ensures IsCandidate(cs, os[..k + 1], lit, vals, i)
              <==> IsCandidate(cs, os[..k], lit, vals, i) || (more && i == os[k])
    {
      assert os[k] in os;
    }
    if HasCandidate(cs, os[..k], lit, vals) {
      var i :| IsCandidate(cs, os[..k], lit, vals, i);
      assert IsCandidate(cs, os[..k + 1], lit, vals, i);
    }
    if more {
      assert IsCandidate(cs, os[..k + 1], lit, vals, os[k]);
    }
    if HasCandidate(cs, os[..k + 1], lit, vals) {
      var i :| IsCandidate(cs, os[..k + 1], lit, vals, i);
      assert IsCandidate(cs, os[..k], lit, vals, i) || more;
    }
    forall x ensures InAll(cs, os[..k + 1], lit, vals, x)
                     <==> InAll(cs, os[..k], lit, vals, x) && (more ==> FreeIn(cs[os[k]].lits, lit, vals, x))
    {
      if InAll(cs, os[..k], lit, vals, x) && (more ==> FreeIn(cs[os[k]].lits, lit, vals, x)) {
        forall i | IsCandidate(cs, os[..k + 1], lit, vals, i) ensures FreeIn(cs[i].lits, lit, vals, x) {
          assert IsCandidate(cs, os[..k], lit, vals, i) || i == os[k];
        }
      }
      if InAll(cs, os[..k + 1], lit, vals, x) {
        forall i | IsCandidate(cs, os[..k], lit, vals, i) ensures FreeIn(cs[i].lits, lit, vals, x) {
          assert IsCandidate(cs, os[..k + 1], lit, vals, i);
        }
      }
    }
  }

  /** Whether the clause is satisfied by a literal other than the resolved one. */
  method IsBlocked(d: Clause, lit: int, vals: set<int>) returns (blocked: bool)
    requires Consistent(vals)
    ensures blocked == DoublyTrue(d, lit, vals)
  {
    for k := 0 to |d|
      invariant forall j :: 0 <= j < k ==> d[j] == -lit || d[j] !in vals
    {
      if d[k] != -lit && d[k] in vals {
        assert d[k] in d;
        return true;
      }
    }
    blocked := false;
  }

  /** The free literals of the first candidate, each of them once. */
  method FreeLiterals(d: Clause, lit: int, vals: set<int>) returns (free: seq<int>)
    requires forall x :: multiset(d)[x] <= 1
    ensures forall x :: x in free <==> FreeIn(d, lit, vals, x)
    ensures forall i, j :: 0 <= i < j < |free| ==> free[i] != free[j]
  {
    free := [];
    for k := 0 to |d|
      invariant forall x :: x in free <==> FreeIn(d[..k], lit, vals, x)
      invariant forall i, j :: 0 <= i < j < |free| ==> free[i] != free[j]
    {
      PrefixNew(d, k);
      if d[k] != -lit && -d[k] !in vals {
        assert d[k] !in free;
        free := free + [d[k]];
      }
    }
    assert d[..|d|] == d;
  }

  /** Unmarks the free literals of another candidate. */
  method UnmarkFree(d: Clause, lit: int, vals: set<int>, marks0: set<int>) returns (marks: set<int>)
    ensures forall x :: x in marks <==> x in marks0 && !FreeIn(d, lit, vals, x)
  {
    marks := marks0;
    for k := 0 to |d|
      invariant forall x :: x in marks <==> x in marks0 && !FreeIn(d[..k], lit, vals, x)
    {
      assert d[..k + 1] == d[..k] + [d[k]];
      if d[k] != -lit && -d[k] !in vals && d[k] in marks {
        marks := marks - {d[k]};
      }
    }
    assert d[..|d|] == d;
  }

  /** Removes the literals that are still marked from the intersection and marks the others
      again. */
  method KeepUnmarked(intersection: seq<int>, marks0: set<int>) returns (kept: seq<int>, marks: set<int>)
    requires forall x :: x in marks0 ==> x in intersection
    requires forall i, j :: 0 <= i < j < |intersection| ==> intersection[i] != intersection[j]
    ensures forall x :: x in kept <==> x in intersection && x !in marks0
    ensures forall i, j :: 0 <= i < j < |kept| ==> kept[i] != kept[j]
    ensures marks == Lits(kept)
  {
    marks := marks0;
    var s := intersection;
    var j := 0;
    for k := 0 to |s|
      invariant 0 <= j <= k <= |s| == |intersection|
      invariant forall i :: k <= i < |s| ==> s[i] == intersection[i]
      invariant forall x :: x in s[..j] <==> x in intersection[..k] && x !in marks0
      invariant forall a, b :: 0 <= a < b < j ==> s[a] != s[b]
      invariant forall x :: x in marks <==> x in s[..j] || (x in marks0 && x !in intersection[..k])
    {
      var other := s[k];
      assert intersection[..k + 1] == intersection[..k] + [other];
      assert other !in intersection[..k];
      assert other !in s[..j];
      s := s[j := other];
      assert s[..j + 1] == s[..j] + [other];
      if other in marks {
        marks := marks - {other};
      } else {
        marks := marks + {other};
        j := j + 1;
      }
    }
    assert intersection[..|s|] == intersection;
    kept := s[..j];
    assert forall x :: x in marks <==> x in kept;
  }

  /** The formula without the clause that is tried. */
  ghost function RestOf(cs: seq<ClauseRecord>, fixedLits: set<int>, c: int): Formula
    requires 0 <= c < |cs|
  {
    FormulaOf(cs[c := cs[c].(garbage := true)], fixedLits)
  }

  lemma RestContains(mem: Memory, cs: seq<ClauseRecord>, fixedLits: set<int>, c: int, r: int)
    requires Mirrors(mem, cs) && 0 <= c < |cs| && Live(mem, r) && r != c
    ensures Lits(mem[r].lits) in RestOf(cs, fixedLits, c)
  {
    var ds := cs[c := cs[c].(garbage := true)];
    assert ds[r].Live();
  }

  lemma RearrangedMirrors(mem: Memory, mem': Memory, cs: seq<ClauseRecord>, r: int)
    requires Mirrors(mem, cs) && Rearranged(mem, mem', r)
    ensures Mirrors(mem', cs)
  {
    SameMultisetSameLits(mem[r].lits, mem'[r].lits);
  }

  lemma MirrorLiteral(mem: Memory, cs: seq<ClauseRecord>, r: int, x: int, maxVar: nat)
    requires Mirrors(mem, cs) && r in mem && x in mem[r].lits && forall i :: 0 <= i < |cs| ==> GoodRecord(cs[i], maxVar)
    ensures 0 <= r < |cs| && x != 0 && Abs(x) <= maxVar
  {
    assert x in Lits(mem[r].lits);
    assert x in cs[r].lits && GoodRecord(cs[r], maxVar);
  }

  lemma FalseAddition(vals: set<int>, fixedLits: set<int>, added: Clause, lit: int)
    requires vals == fixedLits + Negations(Lits(added)) && fixedLits !! Negations(Lits(added)) && Consistent(vals)
    requires lit !in vals && -lit !in vals && lit != 0
    ensures vals + {-lit} == fixedLits + Negations(Lits(added + [lit])) && Consistent(vals + {-lit})
    ensures fixedLits !! Negations(Lits(added + [lit]))
  {
    assert Lits(added + [lit]) == Lits(added) + {lit};
    forall x ensures x in Negations(Lits(added + [lit])) <==> x in Negations(Lits(added)) || x == -lit {
      InNegations(Lits(added), x);
      InNegations(Lits(added + [lit]), x);
    }
  }

  class Coveror {
    const s: Internal
    /** The variables that may not be used as witnesses. */
    const frozen: set<int>
    /** The true literals: those fixed at the root and the negations of the added ones. */
    var vals: set<int>
    var memory: Memory
    var watches: WatchLists
    var pos: map<int, nat>
    var added: seq<int>
    var extend: seq<int>
    var covered: seq<int>
    var intersection: seq<int>
    var nextAdded: nat
    var nextCovered: nat
    ghost var steps: seq<CoverStep>
    ghost var saved: seq<Clause>
    /** The root-level literals in the order in which they were propagated. */
    ghost const root: seq<int>

    /** The watch lists are those of the given clauses, and root-level literals have been propagated. */
    constructor (s: Internal, frozen: set<int>, memory: Memory, watches: WatchLists, ghost root: seq<int>)
      requires s.Valid() && WatchInvariant(memory, watches) && Mirrors(memory, s.clauses)
      requires Distinct(root) && Lits(root) == s.fixedLits && Propagated(memory, watches, root, |root|)
      ensures this.s == s && this.frozen == frozen && AtRoot()
    {
      this.s, this.frozen, this.memory, this.watches, this.root := s, frozen, memory, watches, root;
      vals, pos := s.fixedLits, map[];
      added, extend, covered, intersection := [], [], [], [];
      nextAdded, nextCovered, steps, saved := 0, 0, [], [];
    }

    /** Between two clauses. */
    ghost predicate AtRoot()
      reads `vals, `added, `extend, `covered, `memory, `watches, `steps, `saved, s, s.external
    {
      && s.Valid() && Watching() && RootSettled() && vals == s.fixedLits
      && added == [] && extend == [] && covered == [] && steps == [] && saved == []
    }

    ghost predicate Values()
      reads `vals, `added, s, s.external
    {
      && vals == s.fixedLits + Negations(Lits(added)) && s.fixedLits !! Negations(Lits(added)) && Consistent(vals)
      && forall x :: x in vals ==> Abs(x) <= s.external.maxVar
    }

    ghost predicate Watching()
      reads `memory, `watches, s`clauses
    {
      WatchInvariant(memory, watches) && Mirrors(memory, s.clauses)
    }

    ghost predicate RootSettled()
      reads `memory, `watches, s`fixedLits
    {
      Distinct(root) && Lits(root) == s.fixedLits && Propagated(memory, watches, root, |root|)
    }

    /** The trail before position `n` has been propagated through all clauses but `c`. */
    ghost predicate Settled(c: int, n: nat)
      reads `memory, `watches, `added, s`fixedLits
    {
      Lits(root) == s.fixedLits && Settling(memory, watches, root, TrailOf(root, added), c, n)
    }

    /** So has the part of the list of `l`, which is the next false literal, before position `j`. */
    ghost predicate Visiting(c: int, l: int, j: nat, n: nat)
      reads `memory, `watches, `added, s`fixedLits
    {
      Lits(root) == s.fixedLits && Visited(memory, watches, root, TrailOf(root, added), c, l, j, n)
    }

    ghost function Rest(c: int): Formula
      requires 0 <= c < |s.clauses|
      reads s
    {
      RestOf(s.clauses, s.fixedLits, c)
    }

    /** The asymmetric part of the state while clause `c` is tried. */
    ghost predicate Adding(c: int)
      reads `vals, `added, `covered, `memory, `watches, s, s.external
    {
      && 0 <= c < |s.clauses| && s.Valid() && Values() && Watching()
      && Entailed(Rest(c), Lits(covered), vals)
    }

    method AsymmetricLiteralAddition(lit: int)
      requires s.Valid() && Values() && lit !in vals && -lit !in vals && lit != 0 && Abs(lit) <= s.external.maxVar
      modifies this`vals, this`added, this`nextCovered
      ensures Values() && vals == old(vals) + {-lit} && added == old(added) + [lit] && nextCovered == 0
    {
      hide Negations, Consistent;
      FalseAddition(vals, s.fixedLits, added, lit);
      vals := vals + {-lit};
      added := added + [lit];
      nextCovered := 0;
    }

    /** Literals were only added; the covered ones are looked at again if there are new ones. */
    ghost predicate Grew(valsBefore: set<int>, addedBefore: seq<int>, nextBefore: nat)
      reads `vals, `added, `nextCovered
    {
      && valsBefore <= vals && addedBefore <= added && nextCovered <= nextBefore
      && (if vals == valsBefore then added == addedBefore && nextCovered == nextBefore else nextCovered == 0)
    }

    /** The only literal of a clause that is not false: its negation is added. */
    method AddImplied(u: int, c: int, ghost r: int, ghost l: int, ghost j: nat, ghost n: nat)
      requires Visiting(c, l, j, n) && Adding(c) && u !in vals && -u !in vals && Live(memory, r) && r != c
               && u in memory[r].lits
      requires 0 !in memory[r].lits && forall x :: x in memory[r].lits && x != u ==> -x in vals
      modifies this`vals, this`added, this`nextCovered
      ensures Adding(c) && vals == old(vals) + {u} && added == old(added) + [-u] && nextCovered == 0
      ensures Visiting(c, l, j, n)
    {
      hide Negations, Entailed, WatchInvariant, RestOf, GoodRecord, Visited, TrailOf;
      VisitedAdded(memory, watches, root, added, vals, c, l, j, n, -u);
      RestContains(memory, s.clauses, s.fixedLits, c, r);
      MirrorLiteral(memory, s.clauses, r, u, s.external.maxVar);
      AsymmetricAddition(Rest(c), Lits(covered), vals, Lits(memory[r].lits), u);
      AsymmetricLiteralAddition(-u);
    }

    /** Searches a literal that is not false, from the saved position and around. */
    method Search(lits: Clause, middle: nat) returns (k: nat)
      requires 2 <= middle <= |lits|
      ensures 2 <= k <= |lits|
      ensures k < |lits| && -lits[k] in vals ==> forall i :: 2 <= i < |lits| ==> -lits[i] in vals
      ensures k == |lits| ==> forall i :: 2 <= i < |lits| ==> -lits[i] in vals
    {
      k := middle;
      while k != |lits| && -lits[k] in vals
        invariant middle <= k <= |lits| && forall i :: middle <= i < k ==> -lits[i] in vals
        decreases |lits| - k
      {
        k := k + 1;
      }
      if k == |lits| {
        k := 2;
        while k != middle && -lits[k] in vals
          invariant 2 <= k <= middle && forall i :: 2 <= i < k ==> -lits[i] in vals
          decreases middle - k
        {
          k := k + 1;
        }
      }
    }

    /** A watch of a live clause with more than two literals whose other watched literal is
        not true, after the watched literals were ordered. */
    method VisitLong(c: int, l: int, j: nat, ghost n: nat) returns (subsumed: bool, kept: bool)
      requires Visiting(c, l, j, n) && Adding(c) && -l in vals && j < |ListOf(watches, l)|
      requires var r := ListOf(watches, l)[j].clause;
               && r != c && Live(memory, r) && |memory[r].lits| > 2
               && memory[r].lits[1] == l && memory[r].lits[0] != l && memory[r].lits[0] !in vals
      modifies this`vals, this`added, this`nextCovered, this`memory, this`watches, this`pos
      ensures Adding(c) && Grew(old(vals), old(added), old(nextCovered))
      ensures |ListOf(watches, l)| == |old(ListOf(watches, l))| - if kept then 0 else 1
      ensures subsumed ==> kept && Implies(Rest(c), Lits(covered))
      ensures Visiting(c, l, if subsumed || !kept then j else j + 1, n)
    {
      hide WatchInvariant, Mirrors, Entailed, RestOf, GoodRecord, Negations, Distinct, Implies, ListOf, Consistent,
           Live, Lits, Visited, TrailOf, Other;
      TrailValues();
      var list := ListOf(watches, l);
      var r := list[j].clause;
      LiveMeans(memory, r);
      var lits := memory[r].lits;
      var other := lits[0];
      WatchFacts(memory, watches, l, j);
      var k := SearchFrom(r, lits);
      if k < |lits| && lits[k] in vals {
        var b := lits[k];
        assert b in lits;
        ConsistentAt(vals, l, b);
        SetBlit(c, l, j, b, n);
        return false, true;
      }
      if k < |lits| && -lits[k] !in vals {
        MoveTo(c, l, j, k, lits, n);
        return false, false;
      }
      AllOthersFalse(lits, l, other);
      OtherOf(lits, l);
      subsumed := UnitOrSubsumed(other, c, r, l, j, n);
      kept := true;
    }

    lemma OtherOf(lits: Clause, l: int)
      requires |lits| >= 2 && lits[1] == l && lits[0] != l
      ensures Other(lits, l) == lits[0] && lits[0] in lits
    {
    }

    /** Searches from the saved position of the clause, and saves the new one. */
    method SearchFrom(r: int, lits: Clause) returns (k: nat)
      requires |lits| > 2
      modifies this`pos
      ensures 2 <= k <= |lits|
      ensures k == |lits| || -lits[k] in vals ==> forall i :: 2 <= i < |lits| ==> -lits[i] in vals
    {
      var middle := if r in pos && 2 <= pos[r] <= |lits| then pos[r] else 2;
      k := Search(lits, middle);
      pos := pos[r := k];
    }

    lemma AllOthersFalse(lits: Clause, l: int, other: int)
      requires |lits| >= 2 && lits[0] == other && lits[1] == l && -l in vals
      requires forall i :: 2 <= i < |lits| ==> -lits[i] in vals
      ensures forall x :: x in lits && x != other ==> -x in vals
    {
    }

    /** All literals but one are false: the last one decides. */
    method UnitOrSubsumed(u: int, c: int, r: int, ghost l: int, ghost j: nat, ghost n: nat) returns (subsumed: bool)
      requires Adding(c) && u !in vals && Live(memory, r) && r != c && u in memory[r].lits
      requires 0 !in memory[r].lits && forall x :: x in memory[r].lits && x != u ==> -x in vals
      requires Visiting(c, l, j, n) && j < |ListOf(watches, l)| && ListOf(watches, l)[j].clause == r
      requires ListOf(watches, l)[j].blit == u || (|memory[r].lits| >= 2 && Other(memory[r].lits, l) == u)
      modifies this`vals, this`added, this`nextCovered
      ensures Adding(c) && Grew(old(vals), old(added), old(nextCovered))
      ensures subsumed ==> Implies(Rest(c), Lits(covered))
      ensures Visiting(c, l, if subsumed then j else j + 1, n)
    {
      hide WatchInvariant, Mirrors, Entailed, RestOf, GoodRecord, Negations, Implies, Consistent, Visited, TrailOf,
           ListOf,
           Other;
      if -u !in vals {
        AddImplied(u, c, r, l, j, n);
        TrailValues();
        VisitedKeep(memory, watches, root, TrailOf(root, added), c, l, j, n);
        return false;
      }
      RestContains(memory, s.clauses, s.fixedLits, c, r);
      AsymmetricConflict(Rest(c), Lits(covered), vals, Lits(memory[r].lits));
      subsumed := true;
    }

    lemma LiveMeans(mem: Memory, r: int)
      requires Live(mem, r)
      ensures r in mem && mem[r].size != 0
    {
    }

    /** The trail lists the true literals. */
    lemma TrailValues()
      requires Values() && Lits(root) == s.fixedLits
      ensures forall x :: x in TrailOf(root, added) <==> x in vals
      ensures Lits(TrailOf(root, added)) == vals
    {
      TrailIs(root, added, vals);
    }

    /** A true literal of the clause becomes the blocking literal of a watch. */
    method SetBlit(c: int, l: int, j: nat, b: int, ghost n: nat)
      requires Visiting(c, l, j, n) && b in TrailOf(root, added)
      requires Watching() && j < |ListOf(watches, l)| && b != l
      requires var r := ListOf(watches, l)[j].clause; r in memory && b in memory[r].lits
      modifies this`watches
      ensures Watching() && |ListOf(watches, l)| == |old(ListOf(watches, l))| && Visiting(c, l, j + 1, n)
    {
      hide WatchInvariant, Mirrors, ListOf, Visited, TrailOf;
      var list := ListOf(watches, l);
      ChangeBlit(memory, watches, l, j, b, [], 0);
      VisitedBlit(memory, watches, root, TrailOf(root, added), c, l, j, n, b);
      watches := watches[l := list[j := list[j].(blit := b)]];
      UpdatedList(watches, l, list[j := list[j].(blit := b)]);
    }

    lemma ConsistentAt(v: set<int>, l: int, b: int)
      requires Consistent(v) && -l in v && b in v
      ensures b != l
    {
    }

    /** Moves a watch to literal `k` of its clause. */
    method MoveTo(c: int, l: int, j: nat, k: nat, lits: Clause, ghost n: nat)
      requires Visiting(c, l, j, n) && j < |ListOf(watches, l)| && ListOf(watches, l)[j].clause != c
      requires k < |lits| && -lits[k] !in TrailOf(root, added)
      requires Watching() && j < |ListOf(watches, l)|
      requires var r := ListOf(watches, l)[j].clause;
               && Live(memory, r) && lits == memory[r].lits && 2 <= k < |lits| && lits[1] == l
      modifies this`memory, this`watches
      ensures Watching() && |ListOf(watches, l)| == |old(ListOf(watches, l))| - 1 && Visiting(c, l, j, n)
    {
      hide WatchInvariant, Mirrors, ListOf, Distinct, Visited, TrailOf;
      ghost var mem, ws := memory, watches;
      var list := ListOf(watches, l);
      var r := list[j].clause;
      watches := watches[lits[k] := ListOf(watches, lits[k]) + [Watch(l, list[j].size, r)]];
      memory := memory[r := memory[r].(lits := lits[1 := lits[k]][k := l])];
      watches := watches[l := list[..j] + list[j + 1..]];
      ReplacedMultiset(lits, memory[r].lits, l, k);
      assert Rearranged(mem, memory, r);
      assert Moves(mem, memory, ws, l, j, k);
      MovedFacts(mem, memory, ws, l, j, k);
      assert watches == Moved(ws, l, j, lits[k]);
      MovedIsGood(mem, memory, ws, l, j, k);
      VisitedMove(mem, memory, ws, root, TrailOf(root, added), c, l, j, n, k);
      MovedLists(ws, l, j, lits[k], l);
      RearrangedMirrors(mem, memory, s.clauses, r);
    }

    /** A watch whose blocking literal is not true and whose clause is live and not binary. */
    method VisitUnsatisfied(c: int, l: int, j: nat, ghost n: nat) returns (subsumed: bool, kept: bool)
      requires Visiting(c, l, j, n) && Adding(c) && -l in vals && j < |ListOf(watches, l)|
      requires var r := ListOf(watches, l)[j].clause; r != c && Live(memory, r) && |memory[r].lits| > 2
      modifies this`vals, this`added, this`nextCovered, this`memory, this`watches, this`pos
      ensures Adding(c) && Grew(old(vals), old(added), old(nextCovered))
      ensures |ListOf(watches, l)| == |old(ListOf(watches, l))| - if kept then 0 else 1
      ensures subsumed ==> kept && Implies(Rest(c), Lits(covered))
      ensures Visiting(c, l, if subsumed || !kept then j else j + 1, n)
    {
      hide WatchInvariant, Mirrors, Entailed, RestOf, GoodRecord, Negations, Distinct, Implies, ListOf, Consistent,
           Rearranged, Visited, TrailOf, Other;
      var other := SwapToSecond(c, l, j, n);
      TrailValues();
      if other in vals {
        SetBlit(c, l, j, other, n);
        return false, true;
      }
      subsumed, kept := VisitLong(c, l, j, n);
    }

    /** Moves the false literal to the second place of its clause. */
    method SwapToSecond(c: int, l: int, j: nat, ghost n: nat) returns (other: int)
      requires Visiting(c, l, j, n) && Watching() && j < |ListOf(watches, l)|
      requires var r := ListOf(watches, l)[j].clause; r != c && Live(memory, r)
      modifies this`memory
      ensures Visiting(c, l, j, n) && Watching()
      ensures var r := ListOf(watches, l)[j].clause;
              && Live(memory, r) && |memory[r].lits| == |old(memory)[r].lits| >= 2
              && memory[r].lits[1] == l && memory[r].lits[0] == other != l && other in memory[r].lits
    {
      hide WatchInvariant, Mirrors, Distinct, ListOf, Visited, TrailOf;
      var r := ListOf(watches, l)[j].clause;
      WatchFacts(memory, watches, l, j);
      ghost var mem := memory;
      other := Other(memory[r].lits, l);
      memory := memory[r := memory[r].(lits := [other, l] + memory[r].lits[2..])];
      SwapFront(mem[r].lits, l);
      SwapIsRearranged(mem, memory, r);
      SwapIsSameWatched(mem, memory, r, l);
      SwapWatched(mem, memory, watches, r, [], 0);
      VisitedSwap(mem, memory, watches, root, TrailOf(root, added), c, l, j, n, r);
      RearrangedMirrors(mem, memory, s.clauses, r);
    }

    /** One watch of the false literal `l`; the clause that is tried is ignored. */
    method Visit(c: int, l: int, j: nat, ghost n: nat) returns (subsumed: bool, kept: bool)
      requires Visiting(c, l, j, n) && Adding(c) && -l in vals && j < |ListOf(watches, l)|
      modifies this`vals, this`added, this`nextCovered, this`memory, this`watches, this`pos
      ensures Adding(c) && Grew(old(vals), old(added), old(nextCovered))
      ensures |ListOf(watches, l)| == |old(ListOf(watches, l))| - if kept then 0 else 1
      ensures subsumed ==> kept && Implies(Rest(c), Lits(covered))
      ensures Visiting(c, l, if subsumed || !kept then j else j + 1, n)
    {
      hide WatchInvariant, Entailed, RestOf, GoodRecord, Negations, Distinct, Implies, ListOf, Consistent, Visited,
           TrailOf,
           Other;
      var list := ListOf(watches, l);
      var w := list[j];
      WatchFacts(memory, watches, l, j);
      TrailValues();
      if w.clause == c || w.blit in vals {
        VisitedKeep(memory, watches, root, TrailOf(root, added), c, l, j, n);
        return false, true;
      }
      if s.clauses[w.clause].garbage {
        DropGarbage(memory, watches, l, j, [], 0);
        VisitedDrop(memory, watches, root, TrailOf(root, added), c, l, j, n);
        watches := watches[l := list[..j] + list[j + 1..]];
        UpdatedList(watches, l, list[..j] + list[j + 1..]);
        return false, false;
      }
      if w.size == 2 {
        subsumed := UnitOrSubsumed(w.blit, c, w.clause, l, j, n);
        return subsumed, true;
      }
      subsumed, kept := VisitUnsatisfied(c, l, j, n);
    }

    /** Propagates a false literal: literals that have to be false as well are added. */
    method PropagateAsymmetric(lit: int, c: int, ghost n: nat) returns (subsumed: bool)
      requires Settled(c, n) && |TrailOf(root, added)| > n && TrailOf(root, added)[n] == -lit
      requires Adding(c) && -lit in vals
      modifies this`vals, this`added, this`nextCovered, this`memory, this`watches, this`pos
      ensures Adding(c) && Grew(old(vals), old(added), old(nextCovered))
      ensures subsumed ==> Implies(Rest(c), Lits(covered))
      ensures Settled(c, if subsumed then n else n + 1)
    {
      hide Values, Watching, Entailed, RestOf, Implies, ListOf, GoodRecord, Visited, Settling, TrailOf;
      subsumed := false;
      var j := 0;
      VisitedStart(memory, watches, root, TrailOf(root, added), c, lit, n);
      while !subsumed && j < |ListOf(watches, lit)|
        invariant Adding(c) && Grew(old(vals), old(added), old(nextCovered)) && j <= |ListOf(watches, lit)|
        invariant subsumed ==> Implies(Rest(c), Lits(covered))
        invariant !subsumed ==> Visiting(c, lit, j, n)
        invariant Settled(c, n)
        decreases |ListOf(watches, lit)| - j, subsumed
      {
        var kept;
        subsumed, kept := Visit(c, lit, j, n);
        VisitedIsSettling(memory, watches, root, TrailOf(root, added), c, lit,
                          if subsumed || !kept then j else j + 1, n);
        if kept {
          j := j + 1;
        }
      }
      if !subsumed {
        VisitedEnd(memory, watches, root, TrailOf(root, added), c, lit, j, n);
      }
    }

    // ------------------------------------------------------------ covered literals

    /** Occurrence lists are complete for literals that can be witnesses. */
    ghost predicate AllConnected()
      reads s`clauses, s`occs, s`fixedLits
    {
      forall lit :: Abs(lit) !in frozen && !HasRootValue(lit, s.fixedLits) ==> ConnectedIn(s.clauses, s.Occs(lit), lit)
    }

    /** The literals common to all candidates, without those that have a value; `first` stays
        true if there is no candidate.  A candidate that empties the intersection is moved to
        the front of the list. */
    method Intersect(lit: int) returns (first: bool)
      requires s.Valid() && Consistent(vals) && intersection == [] && lit != 0
      modifies this`intersection, s`occs
      ensures s.Valid() && forall l, i :: i in s.Occs(l) <==> i in old(s.Occs(l))
      ensures first == !HasCandidate(s.clauses, old(s.Occs(-lit)), lit, vals) && (first ==> intersection == [])
      ensures !first ==> Intersects(s.clauses, old(s.Occs(-lit)), lit, vals, intersection)
    {
      hide IsCandidate, InAll, HasCandidate, GoodRecord, Consistent, FreeIn, Intersects, Narrowed;
      ghost var cs := s.clauses;
      var os := s.Occs(-lit);
      ghost var os0 := os;
      var marks: set<int> := {};
      first := true;
      assert os0[..0] == [];
      assert Narrowed(cs, os0[..0], lit, first, marks) by {
        NoCandidates(cs, lit, vals);
        NarrowedFirst(cs, lit, marks);
      }
      var i := 0;
      while i < |os|
        invariant 0 <= i <= |os| && os == os0 && s.occs == old(s.occs)
        invariant Narrowed(cs, os0[..i], lit, first, marks)
      {
        var wasFirst := first;
        OccInRange(-lit, i);
        var blocked;
        first, marks, blocked := NarrowBy(os[i], lit, first, marks, os0, i);
        if !blocked && !wasFirst && intersection == [] {
          NarrowedMeans(cs, os0[..i + 1], lit, first, marks);
          os := RotateToFront(os, i);
          RotatedMembers(os0, os, i);
          EmptyStaysEmpty(cs, os0, lit, vals, i + 1);
          EmptyIntersects(cs, os0, lit, vals);
          SetOccs(-lit, os0, os);
          return;
        }
        i := i + 1;
      }
      assert os0[..i] == os0;
      NarrowedMeans(cs, os0, lit, first, marks);
    }

    /** What is known after the listed clauses. */
    ghost predicate Narrowed(cs: seq<ClauseRecord>, os: seq<int>, lit: int, first: bool, marks: set<int>)
      reads `vals, `intersection
    {
      && first == !HasCandidate(cs, os, lit, vals)
      && (first ==> intersection == [] && forall x :: InAll(cs, os, lit, vals, x))
      && (!first ==> Intersects(cs, os, lit, vals, intersection) && marks == Lits(intersection))
    }

    lemma NarrowedFirst(cs: seq<ClauseRecord>, lit: int, marks: set<int>)
      requires !HasCandidate(cs, [], lit, vals) && intersection == [] && forall x :: InAll(cs, [], lit, vals, x)
      ensures Narrowed(cs, [], lit, true, marks)
    {
    }

    lemma NarrowedMeans(cs: seq<ClauseRecord>, os: seq<int>, lit: int, first: bool, marks: set<int>)
      requires Narrowed(cs, os, lit, first, marks)
      ensures first == !HasCandidate(cs, os, lit, vals) && (first ==> intersection == [])
      ensures !first ==> Intersects(cs, os, lit, vals, intersection)
      ensures !first && intersection == [] ==> forall x :: !InAll(cs, os, lit, vals, x)
    {
      hide InAll, HasCandidate, Intersects;
      if !first && intersection == [] {
        NoneInAll(cs, os, lit, vals);
      }
    }

    /** Takes one more clause into account. */
    method NarrowBy(c: int, lit: int, first0: bool, marks0: set<int>, ghost os: seq<int>, ghost i: nat)
      returns (first: bool, marks: set<int>, blocked: bool)
      requires s.Valid() && Consistent(vals) && i < |os| && os[i] == c && 0 <= c < |s.clauses|
      requires Narrowed(s.clauses, os[..i], lit, first0, marks0)
      modifies this`intersection
      ensures Narrowed(s.clauses, os[..i + 1], lit, first, marks)
      ensures blocked == !IsCandidate(s.clauses, os, lit, vals, c) && (blocked ==> intersection == old(intersection))
      ensures !first0 ==> !first
    {
      hide IsCandidate, InAll, HasCandidate, GoodRecord, Consistent, FreeIn, Intersects;
      ghost var cs := s.clauses;
      first, marks := first0, marks0;
      CandidateStep(cs, os, lit, vals, i);
      blocked := s.clauses[c].garbage;
      if !blocked {
        blocked := IsBlocked(s.clauses[c].lits, lit, vals);
      }
      CandidateMeans(cs, os, lit, vals, i, blocked);
      if blocked {
        SkipIntersects(cs, os, lit, vals, i, intersection, os[..i + 1]);
        return;
      }
      assert forall x :: multiset(s.clauses[c].lits)[x] <= 1 by { UniqueLits(c); }
      if first {
        intersection := FreeLiterals(s.clauses[c].lits, lit, vals);
        FirstIntersects(cs, os, lit, vals, i, intersection);
        marks := Lits(intersection);
        first := false;
      } else {
        ghost var before := intersection;
        UniqueIntersection(cs, os[..i], lit, vals, intersection);
        marks := UnmarkFree(s.clauses[c].lits, lit, vals, marks);
        intersection, marks := KeepUnmarked(intersection, marks);
        KeptMeans(before, intersection, marks0, s.clauses[c].lits, lit, vals);
        NextIntersects(cs, os, lit, vals, i, before, intersection);
      }
    }

    lemma SkipIntersects(cs: seq<ClauseRecord>, os: seq<int>, lit: int, v: set<int>, k: nat, inter: seq<int>,
                         next: seq<int>)
      requires k < |os| && next == os[..k + 1] && 0 <= os[k] < |cs| && !IsCandidate(cs, os, lit, v, os[k])
      ensures Intersects(cs, os[..k], lit, v, inter) ==> Intersects(cs, next, lit, v, inter)
      ensures (forall x :: InAll(cs, os[..k], lit, v, x)) ==> forall x :: InAll(cs, next, lit, v, x)
      ensures HasCandidate(cs, os[..k], lit, v) == HasCandidate(cs, next, lit, v)
    {
      hide IsCandidate, InAll, FreeIn, HasCandidate;
      CandidateStep(cs, os, lit, v, k);
      forall x ensures InAll(cs, os[..k], lit, v, x) == InAll(cs, next, lit, v, x) { }
    }

    method SetOccs(l: int, ghost os0: seq<int>, os: seq<int>)
      requires s.Valid() && os0 == s.Occs(l) && forall i :: i in os <==> i in os0
      modifies s`occs
      ensures s.Valid() && s.Occs(l) == os && forall k, i :: i in s.Occs(k) <==> i in old(s.Occs(k))
    {
      hide GoodRecord;
      s.occs := s.occs[l := os];
    }

    lemma OccInRange(l: int, i: nat)
      requires s.Valid() && i < |s.Occs(l)|
      ensures 0 <= s.Occs(l)[i] < |s.clauses|
    {
      hide GoodRecord;
      assert s.Occs(l)[i] in s.Occs(l);
    }

    lemma UniqueLits(c: int)
      requires s.Valid() && 0 <= c < |s.clauses|
      ensures forall x :: multiset(s.clauses[c].lits)[x] <= 1
    {
      assert GoodRecord(s.clauses[c], s.external.maxVar);
    }

    lemma NoCandidates(cs: seq<ClauseRecord>, lit: int, v: set<int>)
      ensures !HasCandidate(cs, [], lit, v) && forall x :: InAll(cs, [], lit, v, x)
    {
    }

    lemma CandidateMeans(cs: seq<ClauseRecord>, os: seq<int>, lit: int, v: set<int>, i: nat, blocked: bool)
      requires i < |os| && 0 <= os[i] < |cs|
      requires blocked == (cs[os[i]].garbage || DoublyTrue(cs[os[i]].lits, lit, v))
      ensures IsCandidate(cs, os, lit, v, os[i]) == !blocked
    {
      assert os[i] in os;
    }

    lemma KeptMeans(before: seq<int>, after: seq<int>, marks: set<int>, d: Clause, lit: int, v: set<int>)
      requires marks == Lits(before)
      requires forall x :: x in after <==> x in before && !(x in marks && !FreeIn(d, lit, v, x))
      ensures forall x :: x in after <==> x in before && FreeIn(d, lit, v, x)
    {
      forall x ensures x in after <==> x in before && FreeIn(d, lit, v, x) {
        assert x in before <==> x in marks;
      }
    }

    lemma RotatedMembers(a: seq<int>, b: seq<int>, i: nat)
      requires i < |a| && b == B.MoveToFront(a, i)
      ensures forall x :: x in b <==> x in a
    {
      B.MoveToFrontMultiset(a, i);
      SameMultisetSameLits(a, b);
    }

    lemma FirstIntersects(cs: seq<ClauseRecord>, os: seq<int>, lit: int, v: set<int>, k: nat, inter: seq<int>)
      requires k < |os| && 0 <= os[k] < |cs| && IsCandidate(cs, os, lit, v, os[k])
      requires forall x :: InAll(cs, os[..k], lit, v, x)
      requires forall x :: x in inter <==> FreeIn(cs[os[k]].lits, lit, v, x)
      requires forall i, j :: 0 <= i < j < |inter| ==> inter[i] != inter[j]
      ensures Intersects(cs, os[..k + 1], lit, v, inter)
    {
      hide IsCandidate, InAll, FreeIn, HasCandidate;
      CandidateStep(cs, os, lit, v, k);
      forall x ensures x in inter <==> InAll(cs, os[..k + 1], lit, v, x) {
        assert InAll(cs, os[..k], lit, v, x);
      }
    }

    lemma NextIntersects(cs: seq<ClauseRecord>, os: seq<int>, lit: int, v: set<int>, k: nat, before: seq<int>,
                         after: seq<int>)
      requires k < |os| && 0 <= os[k] < |cs| && IsCandidate(cs, os, lit, v, os[k])
      requires Intersects(cs, os[..k], lit, v, before)
      requires forall x :: x in after <==> x in before && FreeIn(cs[os[k]].lits, lit, v, x)
      requires forall i, j :: 0 <= i < j < |after| ==> after[i] != after[j]
      ensures Intersects(cs, os[..k + 1], lit, v, after)
    {
      hide IsCandidate, InAll, FreeIn, HasCandidate;
      CandidateStep(cs, os, lit, v, k);
      forall x ensures x in after <==> InAll(cs, os[..k + 1], lit, v, x) {
        assert x in before <==> InAll(cs, os[..k], lit, v, x);
      }
    }

    lemma EmptyIntersects(cs: seq<ClauseRecord>, os: seq<int>, lit: int, v: set<int>)
      requires forall x :: !InAll(cs, os, lit, v, x)
      ensures Intersects(cs, os, lit, v, [])
    {
      hide InAll;
    }

    lemma UniqueIntersection(cs: seq<ClauseRecord>, os: seq<int>, lit: int, v: set<int>, inter: seq<int>)
      requires Intersects(cs, os, lit, v, inter)
      ensures forall i, j :: 0 <= i < j < |inter| ==> inter[i] != inter[j]
      ensures forall x :: x in Lits(inter) ==> x in inter
    {
    }

    lemma NoneInAll(cs: seq<ClauseRecord>, os: seq<int>, lit: int, v: set<int>)
      requires Intersects(cs, os, lit, v, [])
      ensures forall x :: !InAll(cs, os, lit, v, x)
    {
      hide InAll;
      forall x ensures !InAll(cs, os, lit, v, x) {
        assert x !in [];
      }
    }

    lemma EmptyStaysEmpty(cs: seq<ClauseRecord>, os: seq<int>, lit: int, v: set<int>, n: nat)
      requires n <= |os| && HasCandidate(cs, os[..n], lit, v) && forall x :: !InAll(cs, os[..n], lit, v, x)
      ensures HasCandidate(cs, os, lit, v) && forall x :: !InAll(cs, os, lit, v, x)
    {
      forall i | IsCandidate(cs, os[..n], lit, v, i) ensures IsCandidate(cs, os, lit, v, i) { }
      var i :| IsCandidate(cs, os[..n], lit, v, i);
      assert IsCandidate(cs, os, lit, v, i);
      forall x ensures !InAll(cs, os, lit, v, x) {
        assert !InAll(cs, os[..n], lit, v, x);
        var j :| IsCandidate(cs, os[..n], lit, v, j) && !FreeIn(cs[j].lits, lit, v, x);
        assert IsCandidate(cs, os, lit, v, j);
      }
    }

    /** The literals of the clause that have no root value. */
    ghost function First(c: int): set<int>
      requires 0 <= c < |s.clauses|
      reads s
    {
      Lits(RootFree(s.clauses[c].lits, s.fixedLits))
    }

    /** The state while clause `c` is tried: the covered literals and the private stack belong
        to a chain of covered literal additions. */
    ghost predicate Extending(c: int)
      reads `vals, `added, `covered, `memory, `watches, `extend, `steps, `saved, s, s.external
    {
      && Adding(c) && Chain(Rest(c), First(c), steps, saved) && Lits(covered) == CoveredAfter(First(c), steps)
      && extend == Concat(saved) && GoodSaved(saved, s.external.maxVar)
      && RootFree(s.clauses[c].lits, s.fixedLits) <= covered
      && forall x :: x in covered ==> -x in vals && !HasRootValue(x, s.fixedLits)
    }

    /** Saves the covered literals, the given one first. */
    method CoverPushExtension(lit: int) returns (ghost c: Clause)
      requires lit in covered && extend == Concat(saved)
      modifies this`extend, this`saved
      ensures saved == old(saved) + [c] && extend == Concat(saved)
      ensures c != [] && c[0] == lit && Lits(c) == Lits(covered)
    {
      hide Concat;
      ghost var before := extend;
      extend := extend + [0];
      extend := extend + [lit];
      c := [lit];
      for k := 0 to |covered|
        invariant extend == before + [0] + c && c != [] && c[0] == lit && saved == old(saved)
        invariant forall x :: x in c <==> x == lit || x in covered[..k]
      {
        assert covered[..k + 1] == covered[..k] + [covered[k]];
        if covered[k] != lit {
          extend := extend + [covered[k]];
          c := c + [covered[k]];
        }
      }
      assert covered[..|covered|] == covered;
      assert forall x :: x in c <==> x in covered;
      assert Lits(c) == Lits(covered);
      ConcatPush(saved, c);
      saved := saved + [c];
    }

    /** Adds the literals of the intersection to the clause. */
    method CoveredLiteralAddition(lit: int, c: int, ghost os: seq<int>, ghost n: nat)
      requires Settled(c, n) && Extending(c) && lit in covered && ConnectedIn(s.clauses, os, -lit) && intersection != []
      requires Intersects(s.clauses, os, lit, vals, intersection) && HasCandidate(s.clauses, os, lit, vals)
      modifies this`vals, this`added, this`covered, this`extend, this`saved, this`steps, this`nextCovered
      ensures Extending(c) && old(vals) < vals && nextCovered == 0 && old(added) <= added && old(covered) <= covered
      ensures Settled(c, n)
    {
      hide Intersects, HasCandidate, Chain, Concat, GoodSaved, RootFree, HasRootValue, WatchInvariant, Mirrors,
           Entailed, RestOf,
           Negations, Consistent, CoveredAfter, ConnectedIn, GoodRecord, CoveredAddition, FreeLiteralsOf, Settled;
      ghost var vals0, covered0, st := vals, covered, CoverStep(lit, Lits(covered), Negations(vals),
                Lits(intersection));
      ghost var fixedLits := s.fixedLits;
      IntersectionIsFree(s.clauses, os, lit, vals, intersection, s.external.maxVar);
      RootValues(lit, s.fixedLits);
      StepHolds(s.clauses, s.fixedLits, c, os, lit, Lits(covered), vals, intersection);
      ghost var saving := CoverPushExtension(lit);
      GoodSavedPush(old(saved), saving, covered0, vals, s.external.maxVar);
      AddIntersection(c, n);
      NonZeroIntersection(intersection, vals0, s.external.maxVar, old(vals));
      AdditionTaken(Rest(c), First(c), steps, old(saved), saving, covered0, vals0, st, intersection);
      steps := steps + [st];
      CoveredHaveNoValue(covered0, intersection, vals0, fixedLits);
    }

    lemma RootValues(lit: int, fixedLits: set<int>)
      ensures HasRootValue(lit, fixedLits) <==> lit in fixedLits || -lit in fixedLits
    {
    }

    /** Assigns the literals of the intersection to false. */
    method AddIntersection(ghost c: int, ghost n: nat)
      requires Settled(c, n) && Values() && FreeLiteralsOf(intersection[0..], vals, s.external.maxVar)
      modifies this`vals, this`added, this`covered, this`nextCovered
      ensures Values() && nextCovered == 0 && covered == old(covered) + intersection && old(added) <= added
      ensures vals == old(vals) + Negations(Lits(intersection)) && Settled(c, n)
    {
      hide Negations, Consistent, FreeLiteralsOf, Settling, TrailOf;
      ghost var vals0, covered0 := vals, covered;
      assert covered0 + intersection[..0] == covered0;
      NothingAdded(vals0, intersection);
      for k := 0 to |intersection|
        invariant Values() && vals == vals0 + Negations(Lits(intersection[..k]))
        invariant covered == covered0 + intersection[..k]
        invariant FreeLiteralsOf(intersection[k..], vals, s.external.maxVar) && old(added) <= added
        invariant Settled(c, n)
      {
        var other := intersection[k];
        FreeFirst(intersection, k, vals, s.external.maxVar);
        FalseAddition(vals, s.fixedLits, added, other);
        SettlingAdded(memory, watches, root, added, vals, c, n, other);
        OneMoreAdded(vals0, intersection, k);
        vals := vals + {-other};
        covered := covered + [other];
        added := added + [other];
        assert covered0 + intersection[..k] + [other] == covered0 + intersection[..k + 1];
      }
      assert intersection[..|intersection|] == intersection;
      nextCovered := 0;
    }

    /** Covered propagation of a literal of the clause: true if the extended clause is blocked
        on it, otherwise the common literals of the resolution candidates are added. */
    method PropagateCovered(lit: int, c: int, ghost n: nat) returns (res: bool)
      requires Settled(c, n) && Extending(c) && lit in covered && AllConnected() && intersection == []
      modifies this`vals, this`added, this`covered, this`extend, this`saved, this`steps, this`nextCovered,
               this`intersection, s`occs
      ensures Extending(c) && AllConnected() && intersection == [] && Grew(old(vals), old(added), old(nextCovered))
      ensures old(covered) <= covered && (vals == old(vals) ==> covered == old(covered))
      ensures res ==> steps != [] && BlockedAddition(Rest(c), steps[|steps| - 1])
      ensures res <==> Abs(lit) !in frozen && !HasCandidate(s.clauses, old(s.Occs(-lit)), lit, old(vals))
      ensures !res && vals == old(vals) ==> Abs(lit) in frozen || Exhausted(s.clauses, s.Occs(-lit), lit, vals)
      ensures (forall l, i :: i in s.Occs(l) <==> i in old(s.Occs(l))) && Settled(c, n)
    {
      hide Intersects, HasCandidate, Chain, Concat, GoodSaved, RootFree, HasRootValue, WatchInvariant, Mirrors,
           Entailed, RestOf, Negations, Consistent, CoveredAfter, ConnectedIn, GoodRecord, CoveredAddition,
           BlockedAddition, AllConnected, Exhausted, InAll, Settled;
      if Abs(lit) in frozen {
        return false;
      }
      ghost var os := s.Occs(-lit);
      var first := IntersectCandidates(lit, c, n);
      if first {
        PushBlocked(lit, c, os);
        res := true;
      } else {
        res := false;
        if intersection != [] {
          CoveredLiteralAddition(lit, c, os, n);
        } else {
          NoneInAll(s.clauses, os, lit, vals);
          ExhaustedNow(s.clauses, os, s.Occs(-lit), lit, vals);
        }
      }
      intersection := [];
    }

    /** Intersects the candidates of a covered literal that may be a witness. */
    method IntersectCandidates(lit: int, c: int, ghost n: nat) returns (first: bool)
      requires Settled(c, n) && Extending(c) && lit in covered && AllConnected() && intersection == []
      requires Abs(lit) !in frozen
      modifies this`intersection, s`occs
      ensures Extending(c) && AllConnected() && Settled(c, n) && ConnectedIn(s.clauses, old(s.Occs(-lit)), -lit)
      ensures forall l, i :: i in s.Occs(l) <==> i in old(s.Occs(l))
      ensures first == !HasCandidate(s.clauses, old(s.Occs(-lit)), lit, vals) && (first ==> intersection == [])
      ensures !first ==> Intersects(s.clauses, old(s.Occs(-lit)), lit, vals, intersection)
    {
      hide Intersects, HasCandidate, Chain, Concat, GoodSaved, RootFree, HasRootValue, WatchInvariant, Mirrors,
           Entailed, RestOf, Negations, Consistent, CoveredAfter, ConnectedIn, GoodRecord, CoveredAddition,
           AllConnected, InAll, Settled;
      NegationConnected(lit);
      NonZeroLit(vals, lit);
      first := Intersect(lit);
      StillConnected();
    }

    twostate lemma StillConnected()
      requires old(AllConnected()) && s.clauses == old(s.clauses) && s.fixedLits == old(s.fixedLits)
      requires forall l, i :: i in s.Occs(l) <==> i in old(s.Occs(l))
      ensures AllConnected()
    {
      hide ConnectedIn, HasRootValue;
      forall l | Abs(l) !in frozen && !HasRootValue(l, s.fixedLits) ensures ConnectedIn(s.clauses, s.Occs(l), l) {
        assert ConnectedIn(s.clauses, old(s.Occs(l)), l);
        ConnectedSameMembers(s.clauses, old(s.Occs(l)), s.Occs(l), l);
      }
    }

    lemma ExhaustedNow(cs: seq<ClauseRecord>, os: seq<int>, os': seq<int>, lit: int, v: set<int>)
      requires HasCandidate(cs, os, lit, v) && (forall x :: !InAll(cs, os, lit, v, x))
      requires forall i :: i in os' <==> i in os
      ensures Exhausted(cs, os', lit, v)
    {
      hide HasCandidate, InAll;
      ExhaustedSameMembers(cs, os, os', lit, v);
    }

    lemma NegationConnected(lit: int)
      requires AllConnected() && Abs(lit) !in frozen && !HasRootValue(lit, s.fixedLits)
      ensures ConnectedIn(s.clauses, s.Occs(-lit), -lit)
    {
      assert Abs(-lit) !in frozen && !HasRootValue(-lit, s.fixedLits);
    }

    lemma NonZeroLit(v: set<int>, lit: int)
      requires Consistent(v) && -lit in v
      ensures lit != 0
    {
    }

    /** All candidates are satisfied: the extended clause is blocked. */
    method PushBlocked(lit: int, c: int, ghost os: seq<int>)
      requires Extending(c) && lit in covered && ConnectedIn(s.clauses, os, -lit)
      requires !HasCandidate(s.clauses, os, lit, vals)
      modifies this`extend, this`saved, this`steps
      ensures Extending(c) && steps != [] && BlockedAddition(Rest(c), steps[|steps| - 1])
    {
      hide Intersects, HasCandidate, Chain, Concat, GoodSaved, RootFree, HasRootValue, WatchInvariant, Mirrors,
           Entailed, RestOf,
           Negations, Consistent, CoveredAfter, ConnectedIn, GoodRecord, CoveredAddition, BlockedAddition;
      RootValues(lit, s.fixedLits);
      ghost var st := CoverStep(lit, Lits(covered), Negations(vals), {});
      BlockedStepHolds(s.clauses, s.fixedLits, c, os, lit, Lits(covered), vals);
      ghost var saving := CoverPushExtension(lit);
      GoodSavedPush(old(saved), saving, covered, vals, s.external.maxVar);
      ChainStep(Rest(c), First(c), steps, old(saved), st, saving);
      steps := steps + [st];
    }

    // ------------------------------------------------------------ one clause

    /** Marks a clause as garbage, for the watch lists as well. */
    method MarkGarbage(c: nat)
      requires s.Valid() && Watching() && RootSettled() && AllConnected() && c < |s.clauses|
      modifies this`memory, s`clauses
      ensures s.Valid() && Watching() && RootSettled() && AllConnected()
      ensures s.clauses == old(s.clauses)[c := old(s.clauses)[c].(garbage := true)]
    {
      hide WatchInvariant, ConnectedIn, HasRootValue, Propagated, Distinct;
      IgnoringPropagated(memory, watches, root, |root|, c);
      GarbageMirrored(memory, watches, s.clauses, c);
      GarbageRecords(s.clauses, c, s.external.maxVar);
      ghost var cs := s.clauses;
      s.MarkGarbage(c);
      if c in memory {
        memory := memory[c := memory[c].(size := 0)];
      }
      forall l | Abs(l) !in frozen && !HasRootValue(l, s.fixedLits) ensures ConnectedIn(s.clauses, s.Occs(l), l) {
        assert ConnectedIn(cs, s.Occs(l), l);
        GarbageConnected(cs, c, s.Occs(l), l);
      }
    }

    /** Assumes the literals of the clause to be false. */
    method AssumeClause(c: nat)
      requires AtRoot() && AllConnected() && c < |s.clauses| && forall x :: x in s.clauses[c].lits ==> x !in s.fixedLits
      modifies this`vals, this`added, this`covered, this`nextAdded, this`nextCovered
      ensures Extending(c) && nextAdded == 0 && nextCovered == 0 && Settled(c, |root|)
    {
      hide WatchInvariant, Mirrors, RestOf, Negations, RootFree, HasRootValue, Concat, ConnectedIn, Entailed,
           Consistent,
           Propagated, Distinct, Settling, TrailOf;
      SettlingStart(memory, watches, root, c);
      TrailMore(root, [], 0);
      var lits := s.clauses[c].lits;
      assert GoodRecord(s.clauses[c], s.external.maxVar);
      RootIsConsistent();
      AssumeLiterals(lits, c);
      nextAdded, nextCovered := 0, 0;
      RootMembers(lits, s.fixedLits);
      FirstEntailed(s.clauses, s.fixedLits, c, covered);
      CoveredAreFalse(covered, s.fixedLits);
      ConcatEmpty();
    }

    method AssumeLiterals(lits: Clause, ghost c: int)
      requires Settled(c, |root|) && s.Valid() && vals == s.fixedLits && added == [] && covered == []
               && Consistent(vals)
      requires forall x :: x in vals ==> Abs(x) <= s.external.maxVar
      requires forall x :: x in lits ==> x != 0 && Abs(x) <= s.external.maxVar && -x !in lits
      requires forall x :: multiset(lits)[x] <= 1
      modifies this`vals, this`added, this`covered, this`nextCovered
      ensures Values() && covered == RootFree(lits, s.fixedLits) && added == covered && Settled(c, |root|)
    {
      hide RootFree, HasRootValue, Negations, Consistent, Settling, TrailOf;
      NothingFalse(s.fixedLits);
      RootEmpty(s.fixedLits);
      assert lits[..0] == [];
      NoneFree(lits, s.fixedLits);
      for i := 0 to |lits|
        invariant s.Valid() && Values() && covered == RootFree(lits[..i], s.fixedLits) && added == covered
        invariant StillFree(lits, i) && Settled(c, |root|)
      {
        var lit := lits[i];
        assert lit in lits;
        RootStep(lits, i, s.fixedLits);
        StillFreeAt(lits, i);
        if lit in vals || -lit in vals {
          StillFreeStep(lits, i, vals);
          continue;
        }
        RootValueIs(lit);
        LaterLiterals(lits, i);
        ghost var before := vals;
        SettlingAdded(memory, watches, root, added, vals, c, |root|, lit);
        AsymmetricLiteralAddition(lit);
        StillFreeStep(lits, i, before);
        covered := covered + [lit];
      }
      assert lits[..|lits|] == lits;
    }

    /** The remaining literals have only root values. */
    ghost predicate StillFree(lits: Clause, i: nat)
      reads `vals, s
    {
      forall k :: i <= k < |lits| ==> HasRootValue(lits[k], s.fixedLits) || (lits[k] !in vals && -lits[k] !in vals)
    }

    lemma NoneFree(lits: Clause, fixedLits: set<int>)
      requires vals == fixedLits == s.fixedLits
      ensures StillFree(lits, 0)
    {
    }

    lemma StillFreeAt(lits: Clause, i: nat)
      requires StillFree(lits, i) && i < |lits|
      ensures lits[i] in vals || -lits[i] in vals ==> HasRootValue(lits[i], s.fixedLits)
    {
      hide HasRootValue;
    }

    lemma StillFreeStep(lits: Clause, i: nat, before: set<int>)
      requires i < |lits| && (vals == before || vals == before + {-lits[i]})
      requires forall k :: i <= k < |lits| ==>
                 HasRootValue(lits[k], s.fixedLits) || (lits[k] !in before && -lits[k] !in before)
      requires vals != before ==> forall k :: i < k < |lits| ==> lits[k] != lits[i] && lits[k] != -lits[i]
      ensures StillFree(lits, i + 1)
    {
      hide HasRootValue;
    }

    lemma RootIsConsistent()
      requires AtRoot()
      ensures Consistent(s.fixedLits) && forall x :: x in s.fixedLits ==> Abs(x) <= s.external.maxVar
    {
    }

    lemma RootValueIs(lit: int)
      requires Values()
      ensures HasRootValue(lit, s.fixedLits) ==> lit in vals || -lit in vals
      ensures lit in vals || -lit in vals ==> HasRootValue(lit, s.fixedLits) || lit in added || -lit in added
    {
      InNegations(Lits(added), lit);
      InNegations(Lits(added), -lit);
    }

    lemma LaterLiterals(lits: Clause, i: nat)
      requires i < |lits| && (forall x :: multiset(lits)[x] <= 1) && forall x :: x in lits ==> -x !in lits
      ensures forall k :: i < k < |lits| ==> lits[k] != lits[i] && lits[k] != -lits[i]
    {
      forall k | i < k < |lits| ensures lits[k] != lits[i] && lits[k] != -lits[i] {
        PrefixNew(lits, k);
        assert lits[i] in lits[..k] && lits[i] in lits && lits[k] in lits;
      }
    }

    /** Unassigns all literals that were added. */
    method Unassign()
      requires Values()
      modifies this`vals
      ensures vals == s.fixedLits
    {
      hide Consistent, Negations;
      ghost var vals0 := vals;
      NothingAdded(vals0, added);
      assert vals0 - Negations(Lits(added[..0])) == vals0 by { NothingFalse(vals0); assert Lits(added[..0]) == {}; }
      for k := 0 to |added|
        invariant vals == vals0 - Negations(Lits(added[..k]))
      {
        OneMoreRemoved(vals0, added, k);
        vals := vals - {-added[k]};
      }
      assert added[..|added|] == added;
    }

    /** Why the clause may be removed. */
    ghost predicate Covered(c: int)
      requires 0 <= c < |s.clauses|
      reads `covered, `steps, s
    {
      Implies(Rest(c), Lits(covered)) || (steps != [] && BlockedAddition(Rest(c), steps[|steps| - 1]))
    }

    /** For the first covered literals nothing can be added. */
    ghost predicate Stuck(n: nat)
      reads `covered, `vals, s`clauses, s`occs
    {
      && n <= |covered|
      && forall k :: 0 <= k < n ==>
           Abs(covered[k]) in frozen || Exhausted(s.clauses, s.Occs(-covered[k]), covered[k], vals)
    }

    /** The state when the next covered literal is looked at did not change. */
    twostate lemma StuckStays(n: nat)
      requires old(Stuck(n)) && covered == old(covered) && vals == old(vals) && s.clauses == old(s.clauses)
      requires forall l, i :: i in s.Occs(l) <==> i in old(s.Occs(l))
      ensures Stuck(n)
    {
      hide Exhausted;
      forall k | 0 <= k < n && Abs(covered[k]) !in frozen
        ensures Exhausted(s.clauses, s.Occs(-covered[k]), covered[k], vals)
      {
        ExhaustedSameMembers(s.clauses, old(s.Occs(-covered[k])), s.Occs(-covered[k]), covered[k], vals);
      }
    }

    /** Propagates the next added literal. */
    method PropagateNextAdded(c: nat) returns (tautological: bool)
      requires Extending(c) && nextAdded < |added| && Stuck(nextCovered) && Settled(c, |root| + nextAdded)
      modifies this`vals, this`added, this`nextAdded, this`nextCovered, this`memory, this`watches, this`pos
      ensures Extending(c) && nextAdded == old(nextAdded) + 1 <= |added| && (tautological ==> Covered(c))
      ensures old(vals) <= vals && (vals == old(vals) ==> added == old(added)) && Stuck(nextCovered)
      ensures RootSettled() && (!tautological ==> Settled(c, |root| + nextAdded))
      ensures forall x :: x in vals ==> Abs(x) <= s.external.maxVar
    {
      hide Chain, Concat, GoodSaved, RootFree, HasRootValue, Watching, Entailed, RestOf, Negations, Consistent,
           CoveredAfter, ConnectedIn, GoodRecord, Implies, BlockedAddition, HasCandidate, Exhausted, Settled,
           RootSettled, TrailOf;
      var lit := added[nextAdded];
      AddedIsFalse(nextAdded);
      TrailAt(root, added, nextAdded);
      nextAdded := nextAdded + 1;
      tautological := PropagateAsymmetric(lit, c, |root| + nextAdded - 1);
      SettledMeans(c, |root| + nextAdded - if tautological then 1 else 0);
    }

    /** Looks at the next covered literal. */
    method PropagateNextCovered(c: nat) returns (tautological: bool)
      requires Extending(c) && nextCovered < |covered| && Stuck(nextCovered) && AllConnected() && intersection == []
      requires Settled(c, |root| + nextAdded)
      modifies this`vals, this`added, this`covered, this`extend, this`saved, this`steps, this`nextCovered,
               this`intersection, s`occs
      ensures Extending(c) && AllConnected() && intersection == [] && (tautological ==> Covered(c))
      ensures old(vals) <= vals && |old(added)| <= |added| && (!tautological ==> Stuck(nextCovered))
      ensures nextCovered <= |covered| && Settled(c, |root| + nextAdded)
      ensures vals == old(vals) ==> added == old(added) && covered == old(covered)
      ensures vals == old(vals) ==> nextCovered == old(nextCovered) + 1
      ensures forall x :: x in vals ==> Abs(x) <= s.external.maxVar
    {
      hide Chain, Concat, GoodSaved, RootFree, HasRootValue, Watching, Entailed, RestOf, Negations, Consistent,
           CoveredAfter,
           ConnectedIn, GoodRecord, Implies, BlockedAddition, HasCandidate, AllConnected, Exhausted, Settled;
      var lit := covered[nextCovered];
      assert lit in covered;
      ghost var n, before := nextCovered, vals;
      nextCovered := nextCovered + 1;
      label Before:
      tautological := PropagateCovered(lit, c, |root| + nextAdded);
      if vals == before {
        StuckStays@Before(n);
      }
    }

    /** Alternates asymmetric and covered propagation, asymmetric literals first.  It stops when
        all added literals were propagated and no covered literal has anything to add. */
    method PropagateAll(c: nat) returns (tautological: bool)
      requires c < |s.clauses| && Extending(c) && AllConnected() && intersection == [] && nextAdded == 0
      requires nextCovered == 0 && Settled(c, |root|)
      modifies this`vals, this`added, this`covered, this`extend, this`saved, this`steps, this`nextAdded,
               this`nextCovered,
               this`intersection, this`memory, this`watches, this`pos, s`occs
      ensures Extending(c) && AllConnected() && intersection == [] && (tautological ==> Covered(c))
      ensures RootSettled()
      ensures !tautological ==> nextAdded == |added| && Stuck(|covered|) && Settled(c, |root| + |added|)
    {
      hide *;
      tautological := false;
      NothingStuck();
      SettledMeans(c, |root|);
      while !tautological
        invariant Extending(c) && AllConnected() && intersection == [] && (tautological ==> Covered(c))
        invariant nextAdded <= |added| && nextCovered <= |covered| && (!tautological ==> Stuck(nextCovered))
        invariant RootSettled() && (!tautological ==> Settled(c, |root| + nextAdded))
        decreases Universe(s.external.maxVar) - vals, |added| - nextAdded, |covered| - nextCovered, !tautological
      {
        ghost var before := vals;
        if nextAdded < |added| {
          ghost var k := nextCovered;
          tautological := PropagateNextAdded(c);
          StuckLength(nextCovered);
        } else if nextCovered < |covered| {
          tautological := PropagateNextCovered(c);
          SettledMeans(c, |root| + nextAdded);
        } else {
          break;
        }
        InUniverse(vals, s.external.maxVar);
        Shrinks(before, vals, Universe(s.external.maxVar));
      }
    }

    lemma NothingStuck()
      ensures Stuck(0)
    {
    }

    lemma StuckLength(n: nat)
      requires Stuck(n)
      ensures n <= |covered|
    {
    }

    lemma Shrinks(a: set<int>, b: set<int>, all: set<int>)
      requires a <= b <= all
      ensures all - b <= all - a && (a != b ==> all - b != all - a)
    {
      if all - b == all - a {
        forall x | x in b ensures x in a {
          assert x !in all - b;
        }
        assert a == b;
      }
    }

    lemma AddedIsFalse(k: nat)
      requires Values() && k < |added|
      ensures -added[k] in vals
    {
      InNegations(Lits(added), -added[k]);
      assert added[k] in Lits(added);
    }

    /** Tries to eliminate a clause: it is removed if the extended clause turned out to be
        tautological after at least one covered literal addition or because it is blocked. */
    method CoverClause(c: nat, proof: bool)
      returns (tautological: bool, ghost extended: seq<int>, ghost values: set<int>)
      requires AtRoot() && s.Sound() && AllConnected() && intersection == [] && c < |s.clauses| && s.clauses[c].Live()
      modifies this, s`clauses, s`occs, s`clauseId, s.external`extension, s.external`entries
      ensures AtRoot() && s.Sound() && AllConnected() && intersection == []
      ensures s.clauses == old(s.clauses) || s.clauses == old(s.clauses)[c := old(s.clauses)[c].(garbage := true)]
      ensures s.clauses[c].garbage && !tautological <==> HasTrue(s.clauses[c].lits, s.fixedLits)
      ensures !s.clauses[c].garbage || !tautological ==> s.external.entries == old(s.external.entries)
      ensures !tautological && !s.clauses[c].garbage ==>
                && RootFree(s.clauses[c].lits, s.fixedLits) <= extended
                && forall x :: x in extended ==>
                     -x in values && (Abs(x) in frozen || Exhausted(s.clauses, s.Occs(-x), x, values))
      ensures !tautological && !s.clauses[c].garbage ==>
                && Entailed(RestOf(s.clauses, s.fixedLits, c), Lits(extended), values)
                && Quiescent(LiveFormula(Ignoring(memory, c)), values)
      ensures tautological && !s.clauses[c].garbage ==>
                Implies(RestOf(s.clauses, s.fixedLits, c), Lits(RootFree(s.clauses[c].lits, s.fixedLits)))
    {
      hide Chain, Concat, GoodSaved, RootFree, HasRootValue, Watching, Entailed, RestOf, Negations, Consistent,
           CoveredAfter,
           ConnectedIn, GoodRecord, Implies, BlockedAddition, HasCandidate, AllConnected, FormulaOf, Reconstructs,
           Values, Adding,
           Extending, Covered, AtRoot, HasTrue, RootSettled, Settled, Quiescent, LiveFormula, Ignoring, Stuck;
      RootMeans();
      var satisfied := IsSatisfied(s.clauses[c].lits, vals);
      if satisfied {
        SatisfiedKeepsSound(s.original, s.clauses, s.fixedLits, s.external.entries, c);
        MarkSatisfied(c);
        return false, [], {};
      }
      NotTrueMeans(s.clauses[c].lits, s.fixedLits);
      AssumeClause(c);
      tautological := PropagateAll(c);
      extended, values := covered, vals;
      CoveredMeans(c, !tautological);
      ExtendingMeans(c);
      if tautological && extend != [] {
        RemoveCovered(c, proof);
      } else if tautological {
        AsymmetricTautology(c);
      } else {
        NothingPropagates(c);
      }
      Reset();
    }

    /** Backtracks and clears the stacks. */
    method Reset()
      requires Values() && s.Valid() && Watching() && RootSettled()
      modifies this`vals, this`covered, this`extend, this`added, this`steps, this`saved
      ensures AtRoot()
    {
      hide Watching, RootSettled, Consistent, Negations, GoodRecord;
      Unassign();
      covered, extend, added := [], [], [];
      steps, saved := [], [];
    }

    method MarkSatisfied(c: nat)
      requires AtRoot() && AllConnected() && c < |s.clauses|
      modifies this`memory, s`clauses
      ensures AtRoot() && AllConnected()
      ensures s.clauses == old(s.clauses)[c := old(s.clauses)[c].(garbage := true)]
    {
      hide AllConnected, Watching, RootSettled, GoodRecord;
      MarkGarbage(c);
    }

    method IsSatisfied(lits: Clause, trueLits: set<int>) returns (satisfied: bool)
      ensures satisfied == HasTrue(lits, trueLits)
    {
      hide HasTrue;
      satisfied := false;
      for i := 0 to |lits|
        invariant satisfied ==> HasTrue(lits, trueLits)
        invariant !satisfied ==> forall k :: 0 <= k < i ==> lits[k] !in trueLits
      {
        if lits[i] in trueLits {
          TrueAt(lits, i, trueLits);
          satisfied := true;
        }
      }
      if !satisfied {
        NoneTrue(lits, trueLits);
      }
    }

    lemma NoneTrue(lits: Clause, v: set<int>)
      requires forall k :: 0 <= k < |lits| ==> lits[k] !in v
      ensures !HasTrue(lits, v)
    {
    }

    lemma NotTrueMeans(lits: Clause, v: set<int>)
      requires !HasTrue(lits, v)
      ensures forall x :: x in lits ==> x !in v
    {
    }

    lemma RootMeans()
      requires AtRoot()
      ensures vals == s.fixedLits && s.Valid() && Watching()
    {
    }

    lemma CoveredMeans(c: int, stuck: bool)
      requires Extending(c) && (stuck ==> Stuck(|covered|))
      ensures RootFree(s.clauses[c].lits, s.fixedLits) <= covered
      ensures stuck ==> forall x :: x in covered ==>
                -x in vals && (Abs(x) in frozen || Exhausted(s.clauses, s.Occs(-x), x, vals))
    {
      hide Chain, Concat, GoodSaved, RootFree, HasRootValue, Watching, Entailed, RestOf, Negations, Consistent,
           CoveredAfter, Exhausted;
    }

    lemma ExtendingMeans(c: int)
      requires Extending(c)
      ensures Values() && s.Valid() && Watching() && Entailed(Rest(c), Lits(covered), vals)
    {
    }

    lemma SettledMeans(c: int, n: nat)
      requires Settled(c, n)
      ensures RootSettled()
    {
      DistinctPrefix(root, TrailOf(root, added));
    }

    /** Without covered literal additions the clause itself, without its root-level literals, is implied. */
    lemma AsymmetricTautology(c: int)
      requires Extending(c) && Covered(c) && extend == []
      ensures Implies(Rest(c), Lits(RootFree(s.clauses[c].lits, s.fixedLits)))
    {
      hide RootFree, Entailed, RestOf, GoodRecord, WatchInvariant, Mirrors, Values;
      assert saved == [];
      ChainLength(Rest(c), First(c), steps, saved);
    }

    /** No clause but `c` is unit or falsified. */
    lemma NothingPropagates(c: int)
      requires Extending(c) && Settled(c, |root| + |added|)
      ensures Quiescent(LiveFormula(Ignoring(memory, c)), vals)
    {
      hide WatchInvariant, Mirrors, Entailed, RestOf, Chain, GoodSaved, RootFree, Settling, TrailOf;
      TrailValues();
      TrailMore(root, added, 0);
      SettledIsQuiescent(memory, watches, root, TrailOf(root, added), c);
    }

    /** Copies the private stack and removes the clause. */
    method RemoveCovered(c: nat, proof: bool)
      requires Extending(c) && AllConnected() && s.Sound() && Covered(c) && extend != [] && s.clauses[c].Live()
      requires RootSettled() && forall x :: x in s.clauses[c].lits ==> x !in s.fixedLits
      modifies this`memory, s`clauses, s`clauseId, s.external`extension, s.external`entries
      ensures s.Valid() && s.Sound() && Watching() && RootSettled() && AllConnected() && Values()
      ensures s.clauses == old(s.clauses)[c := old(s.clauses)[c].(garbage := true)]
    {
      hide Chain, Concat, GoodSaved, RootFree, RootAssigned, HasRootValue, Entailed, Negations, Consistent,
           CoveredAfter,
           EntriesOf,
           ConnectedIn, GoodRecord, Implies, BlockedAddition, HasCandidate, AllConnected, FormulaOf, Reconstructs,
           WatchInvariant, Mirrors, RootSettled;
      ghost var cs, stack, missing := s.clauses, s.external.entries, Lits(RootAssigned(s.clauses[c].lits, s.fixedLits));
      assert saved != [] by { ConcatEmpty(); }
      ghost var es := CopyExtension(s, c, extend, covered, proof, saved);
      FirstInClause(s.clauses[c].lits, s.fixedLits);
      MissingAreFalse(s.clauses[c], s.fixedLits, s.external.maxVar);
      ChainLength(Rest(c), First(c), steps, saved);
      CoverKeeps(s.original, cs, s.fixedLits, stack, c, steps, saved, es, First(c), missing, s.external.maxVar);
      MarkGarbage(c);
    }
  }

  lemma ChainLength(f: Formula, first: set<int>, steps: seq<CoverStep>, saved: seq<Clause>)
    requires Chain(f, first, steps, saved)
    ensures |steps| == |saved|
  {
  }

  lemma FirstInClause(c: Clause, fixedLits: set<int>)
    ensures Lits(RootFree(c, fixedLits)) <= Lits(c)
  {
    RootMembers(c, fixedLits);
    forall x | x in Lits(RootFree(c, fixedLits)) ensures x in Lits(c) {
      assert x in RootFree(c, fixedLits);
    }
  }

  lemma MissingAreFalse(r: ClauseRecord, fixedLits: set<int>, maxVar: nat)
    requires GoodRecord(r, maxVar) && forall x :: x in r.lits ==> x !in fixedLits
    ensures forall x :: x in Lits(RootAssigned(r.lits, fixedLits)) ==> x != 0 && -x in fixedLits
  {
    RootMembers(r.lits, fixedLits);
    forall x | x in Lits(RootAssigned(r.lits, fixedLits)) ensures x != 0 && -x in fixedLits {
      assert x in r.lits && HasRootValue(x, fixedLits);
    }
  }

  lemma NothingFalse(v: set<int>)
    ensures Negations({}) == {} && v + Negations(Lits([])) == v && v !! Negations(Lits([])) && v - Negations({}) == v
  {
    assert Lits([]) == {};
  }

  lemma OneMoreRemoved(vals: set<int>, added: seq<int>, k: nat)
    requires k < |added|
    ensures vals - Negations(Lits(added[..k])) - {-added[k]} == vals - Negations(Lits(added[..k + 1]))
  {
    OneMoreAdded({}, added, k);
    assert {} + Negations(Lits(added[..k])) + {-added[k]} == Negations(Lits(added[..k])) + {-added[k]};
    assert {} + Negations(Lits(added[..k + 1])) == Negations(Lits(added[..k + 1]));
  }

  lemma FirstEntailed(cs: seq<ClauseRecord>, fixedLits: set<int>, c: nat, covered: Clause)
    requires c < |cs| && 0 !in covered
    ensures Entailed(RestOf(cs, fixedLits, c), Lits(covered), fixedLits + Negations(Lits(covered)))
  {
    var f := RestOf(cs, fixedLits, c);
    forall m, x | Models(m, f) && x in fixedLits ensures True(m, x) {
      assert {x} in f && Holds(m, {x});
    }
    assert Entailed(f, {}, fixedLits);
    EntailedMore(f, {}, fixedLits, Lits(covered));
    assert {} + Lits(covered) == Lits(covered);
  }

  lemma CoveredAreFalse(covered: Clause, fixedLits: set<int>)
    ensures forall x :: x in covered ==> -x in fixedLits + Negations(Lits(covered))
  {
    forall x | x in covered ensures -x in Negations(Lits(covered)) {
      InNegations(Lits(covered), -x);
    }
  }

  lemma GarbageConnected(cs: seq<ClauseRecord>, c: nat, os: seq<int>, lit: int)
    requires c < |cs| && ConnectedIn(cs, os, lit)
    ensures ConnectedIn(cs[c := cs[c].(garbage := true)], os, lit)
  {
  }

  lemma GarbageMirrored(mem: Memory, ws: WatchLists, cs: seq<ClauseRecord>, c: nat)
    requires WatchInvariant(mem, ws) && Mirrors(mem, cs) && c < |cs|
    ensures var mem' := if c in mem then mem[c := mem[c].(size := 0)] else mem;
            WatchInvariant(mem', ws) && Mirrors(mem', cs[c := cs[c].(garbage := true)])
  {
    if c in mem {
      var mem' := mem[c := mem[c].(size := 0)];
      assert GoodClause(mem[c]);
      forall l ensures GoodList(mem', l, ListOf(ws, l)) {
        assert GoodList(mem, l, ListOf(ws, l));
        forall w | GoodWatch(mem, l, w) ensures GoodWatch(mem', l, w) { }
      }
      forall q | Live(mem', q) ensures Live(mem, q) { }
    }
  }

  lemma ConnectedSameMembers(cs: seq<ClauseRecord>, a: seq<int>, b: seq<int>, lit: int)
    requires ConnectedIn(cs, a, lit) && forall i :: i in b <==> i in a
    ensures ConnectedIn(cs, b, lit)
  {
  }

  lemma BlockedStepHolds(cs: seq<ClauseRecord>, fixedLits: set<int>, c: int, os: seq<int>, lit: int, covered: set<int>,
                         vals: set<int>)
    requires 0 <= c < |cs| && ConnectedIn(cs, os, -lit) && Consistent(vals) && -lit in vals && lit in covered
    requires -lit !in fixedLits
    requires Entailed(RestOf(cs, fixedLits, c), covered, vals) && !HasCandidate(cs, os, lit, vals)
    ensures var st := CoverStep(lit, covered, Negations(vals), {});
            CoveredAddition(RestOf(cs, fixedLits, c), st) && BlockedAddition(RestOf(cs, fixedLits, c), st)
  {
    var ds := cs[c := cs[c].(garbage := true)];
    forall i | IsCandidate(ds, os, lit, vals, i) ensures IsCandidate(cs, os, lit, vals, i) { }
    assert !HasCandidate(ds, os, lit, vals);
    CoveredAdditionHolds(ds, fixedLits, os, lit, covered, vals, {});
    BlockedAdditionHolds(ds, fixedLits, os, lit, vals, CoverStep(lit, covered, Negations(vals), {}));
  }

  /** Different literals of different variables without a value. */
  ghost predicate FreeLiteralsOf(free: seq<int>, vals: set<int>, maxVar: nat) {
    && (forall i :: 0 <= i < |free| ==>
         free[i] !in vals && -free[i] !in vals && free[i] != 0 && Abs(free[i]) <= maxVar)
    && forall i, j :: 0 <= i < j < |free| ==> free[i] != free[j] && free[i] != -free[j]
  }

  lemma IntersectionIsFree(cs: seq<ClauseRecord>, os: seq<int>, lit: int, vals: set<int>, inter: seq<int>, maxVar: nat)
    requires Intersects(cs, os, lit, vals, inter) && HasCandidate(cs, os, lit, vals)
    requires forall i :: 0 <= i < |cs| ==> GoodRecord(cs[i], maxVar)
    ensures FreeLiteralsOf(inter, vals, maxVar) && FreeLiteralsOf(inter[0..], vals, maxVar)
  {
    var i :| IsCandidate(cs, os, lit, vals, i);
    assert GoodRecord(cs[i], maxVar);
    forall k | 0 <= k < |inter| ensures FreeIn(cs[i].lits, lit, vals, inter[k]) {
      assert inter[k] in inter;
      assert InAll(cs, os, lit, vals, inter[k]);
    }
    assert inter[0..] == inter;
  }

  lemma FreeFirst(inter: seq<int>, k: nat, vals: set<int>, maxVar: nat)
    requires k < |inter| && FreeLiteralsOf(inter[k..], vals, maxVar)
    ensures inter[k] !in vals && -inter[k] !in vals && inter[k] != 0 && Abs(inter[k]) <= maxVar
    ensures FreeLiteralsOf(inter[k + 1..], vals + {-inter[k]}, maxVar)
  {
    var a, b := inter[k..], inter[k + 1..];
    assert a[0] == inter[k];
    assert forall i :: 0 <= i < |b| ==> b[i] == a[i + 1];
  }

  lemma NothingAdded(vals: set<int>, inter: seq<int>)
    ensures vals + Negations(Lits(inter[..0])) == vals
  {
    assert Lits(inter[..0]) == {};
    assert Negations({}) == {};
  }

  lemma OneMoreAdded(vals: set<int>, inter: seq<int>, k: nat)
    requires k < |inter|
    ensures vals + Negations(Lits(inter[..k])) + {-inter[k]} == vals + Negations(Lits(inter[..k + 1]))
  {
    assert inter[..k + 1] == inter[..k] + [inter[k]];
    forall x ensures x in Negations(Lits(inter[..k + 1])) <==> x in Negations(Lits(inter[..k])) || x == -inter[k] {
      InNegations(Lits(inter[..k]), x);
      InNegations(Lits(inter[..k + 1]), x);
    }
  }

  lemma NonZeroIntersection(inter: seq<int>, vals: set<int>, maxVar: nat, again: set<int>)
    requires FreeLiteralsOf(inter, vals, maxVar) && again == vals
    ensures 0 !in Lits(inter)
    ensures inter != [] ==> vals < vals + Negations(Lits(inter))
  {
    if inter != [] {
      InNegations(Lits(inter), -inter[0]);
      assert inter[0] in Lits(inter);
      assert -inter[0] in vals + Negations(Lits(inter)) && -inter[0] !in vals;
    }
  }

  lemma GoodSavedPush(saved: seq<Clause>, c: Clause, covered: Clause, vals: set<int>, maxVar: nat)
    requires GoodSaved(saved, maxVar) && c != [] && Lits(c) == Lits(covered) && Consistent(vals)
    requires (forall x :: x in covered ==> -x in vals) && forall x :: x in vals ==> Abs(x) <= maxVar
    ensures GoodSaved(saved + [c], maxVar)
  {
    forall x | x in c ensures x != 0 && Abs(x) <= maxVar {
      assert x in Lits(c);
      assert x in covered && -x in vals;
    }
  }

  /** The resolution candidates of the rest of the formula. */
  lemma StepHolds(cs: seq<ClauseRecord>, fixedLits: set<int>, c: int, os: seq<int>, lit: int, covered: set<int>,
                  vals: set<int>, inter: seq<int>)
    requires 0 <= c < |cs| && ConnectedIn(cs, os, -lit) && Consistent(vals) && -lit in vals && lit in covered
    requires -lit !in fixedLits
    requires Entailed(RestOf(cs, fixedLits, c), covered, vals)
    requires Intersects(cs, os, lit, vals, inter) && HasCandidate(cs, os, lit, vals)
    ensures CoveredAddition(RestOf(cs, fixedLits, c), CoverStep(lit, covered, Negations(vals), Lits(inter)))
  {
    var ds := cs[c := cs[c].(garbage := true)];
    forall i | IsCandidate(ds, os, lit, vals, i) ensures IsCandidate(cs, os, lit, vals, i) { }
    var i :| IsCandidate(cs, os, lit, vals, i);
    forall x | x in Lits(inter) ensures x !in vals && -x !in vals && InAll(ds, os, lit, vals, x) {
      assert InAll(cs, os, lit, vals, x);
      assert FreeIn(cs[i].lits, lit, vals, x);
      forall k | IsCandidate(ds, os, lit, vals, k) ensures FreeIn(ds[k].lits, lit, vals, x) {
        assert FreeIn(cs[k].lits, lit, vals, x);
      }
    }
    CoveredAdditionHolds(ds, fixedLits, os, lit, covered, vals, Lits(inter));
  }

  lemma AdditionTaken(f: Formula, first: set<int>, steps: seq<CoverStep>, saved: seq<Clause>, saving: Clause,
                      covered: Clause,
                      vals: set<int>, st: CoverStep, inter: seq<int>)
    requires Chain(f, first, steps, saved) && Lits(covered) == CoveredAfter(first, steps)
    requires Entailed(f, Lits(covered), vals)
    requires CoveredAddition(f, st) && st.covered == Lits(covered) && st.next == Lits(inter) && 0 !in Lits(inter)
    requires saving != [] && saving[0] == st.lit && Lits(saving) == Lits(covered)
    ensures Chain(f, first, steps + [st], saved + [saving])
    ensures Lits(covered + inter) == CoveredAfter(first, steps + [st])
    ensures Entailed(f, Lits(covered + inter), vals + Negations(Lits(inter)))
  {
    hide Chain, CoveredAddition, Entailed;
    ChainStep(f, first, steps, saved, st, saving);
    EntailedMore(f, Lits(covered), vals, Lits(inter));
    assert Lits(covered + inter) == Lits(covered) + Lits(inter);
  }

  lemma CoveredHaveNoValue(covered: Clause, inter: seq<int>, vals: set<int>, fixedLits: set<int>)
    requires forall x :: x in covered ==> -x in vals && !HasRootValue(x, fixedLits)
    requires fixedLits <= vals && forall i :: 0 <= i < |inter| ==> inter[i] !in vals && -inter[i] !in vals
    ensures forall x :: x in covered + inter ==> -x in vals + Negations(Lits(inter)) && !HasRootValue(x, fixedLits)
  {
    forall x | x in covered + inter ensures -x in vals + Negations(Lits(inter)) && !HasRootValue(x, fixedLits) {
      if x in inter {
        InNegations(Lits(inter), -x);
        var i :| 0 <= i < |inter| && inter[i] == x;
      }
    }
  }
}
