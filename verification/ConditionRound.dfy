/** A round of globally blocked clause elimination: nested worklists over the assignment. */
module ConditionRound {
  import opened Cnf
  import opened Lists
  import opened Extension
  import opened Reconstruction
  import opened InternalSolver
  import opened Conditioning

  class Round {
    const s: Internal
    /** The literals assigned above the root level, in the order of assignment. */
    const trail: seq<int>
    /** The limit on the number of propagations. */
    const limit: int

    var vals: set<int>
    var bits: set<int>
    var occs: Watches
    var conditional: seq<int>
    var unassigned: seq<int>
    var candidates: seq<int>
    var condprops: nat
    /** The clauses looked at in the beginning. */
    ghost var base: set<int>

    constructor (s: Internal, trail: seq<int>, limit: int)
      requires Consistent(Lits(trail)) && NoDuplicates(trail)
      ensures this.s == s && this.trail == trail && this.limit == limit && candidates == []
      ensures AtRest() && conditional == [] && base == {}
    {
      this.s, this.trail, this.limit := s, trail, limit;
      vals, bits, occs := Lits(trail), {}, map[];
      conditional, unassigned, candidates, condprops, base := [], [], [], 0, {};
    }

    ghost function Initial(): set<int> {
      Lits(trail)
    }

    ghost predicate IsSplit()
      reads `vals, `bits, `conditional, `unassigned
    {
      Split(Initial(), vals, bits, conditional, unassigned)
    }

    /** Between two candidates: the whole assignment, split the way it was initially. */
    ghost predicate AtRest()
      reads `vals, `bits, `occs, `conditional, `unassigned, `base, s`clauses
    {
      && IsSplit() && unassigned == [] && vals == Initial()
      && WatchesOk(s.clauses, occs, base, Initial())
      && Justified(s.clauses, base, Initial(), conditional) && Closed(s.clauses, base, Initial(), bits)
    }

    ghost predicate AutarkyOf(c: Clause, lit: int)
      reads `vals, `bits
    {
      if lit != 0 then lit in c && IsAutarky(vals, bits, lit) else forall x :: x in c ==> !IsAutarky(vals, bits, x)
    }

    /** In the middle of the search for the clause `c`. */
    ghost predicate Searching(c: Clause, watchedAutarky: int)
      reads `vals, `bits, `occs, `conditional, `unassigned, `base, s`clauses
    {
      && IsSplit() && WatchesOk(s.clauses, occs, base, Initial()) && 0 !in c
      && Bounds(s.clauses, base, Initial(), c, vals, bits) && AutarkyOf(c, watchedAutarky)
    }

    ghost predicate IsRefined(waiting: seq<int>)
      reads `vals, `bits, `occs, `base, s`clauses
    {
      Refined(s.clauses, occs, base, vals, bits, waiting)
    }

    method FirstAutarky(c: Clause) returns (lit: int)
      requires 0 !in c
      ensures AutarkyOf(c, lit)
    {
      lit := 0;
      for k := 0 to |c|
        invariant lit == 0 && forall j :: 0 <= j < k ==> !IsAutarky(vals, bits, c[j])
      {
        if IsAutarky(vals, bits, c[k]) {
          assert c[k] in c;
          return c[k];
        }
      }
    }

    /** A true literal of a watched clause, and the number of its false autarky literals. */
    method Scan(d: Clause) returns (replacement: int, negative: nat)
      requires 0 !in d
      ensures replacement != 0 ==> replacement in d && replacement in vals
      ensures replacement == 0 ==> !HasTrue(d, vals)
      ensures negative > 0 <==> NegativeAutarky(d, vals, bits)
    {
      replacement, negative := 0, 0;
      for k := 0 to |d|
        invariant replacement != 0 ==> replacement in d && replacement in vals
        invariant replacement == 0 ==> forall j :: 0 <= j < k ==> d[j] !in vals
        invariant negative > 0 <==> exists j :: 0 <= j < k && IsAutarky(vals, bits, -d[j])
      {
        assert d[k] in d;
        if d[k] in vals {
          replacement := d[k];
        }
        if IsAutarky(vals, bits, -d[k]) {
          negative := negative + 1;
        }
      }
      if negative > 0 {
        var j :| 0 <= j < |d| && IsAutarky(vals, bits, -d[j]);
        assert d[j] in d;
      }
    }

    // ------------------------------------------------------------ refinement

    /** Turns the false autarky literals of a clause without a true literal into conditional
        ones; an autarky literal has to be left in the candidate. */
    method TurnConditional(d: int, c: Clause, watched0: int) returns (watched: int)
      requires Searching(c, watched0) && watched0 != 0 && d in base && 0 <= d < |s.clauses|
      requires !HasTrue(s.clauses[d].lits, vals)
      modifies this`bits, this`conditional
      ensures Searching(c, watched) && old(conditional) <= conditional && old(bits) <= bits
      ensures watched != 0 ==> !NegativeAutarky(s.clauses[d].lits, vals, bits)
    {
      hide Split, Bounds, WatchesOk, HasTrue;
      watched := watched0;
      var lits := s.clauses[d].lits;
      var l := 0;
      while watched != 0 && l < |lits|
        invariant 0 <= l <= |lits| && Searching(c, watched)
        invariant old(conditional) <= conditional && old(bits) <= bits
        invariant forall k :: 0 <= k < l && watched != 0 ==> !IsAutarky(vals, bits, -lits[k])
        decreases |lits| - l
      {
        var lit := lits[l];
        assert lit in lits;
        l := l + 1;
        if !IsAutarky(vals, bits, -lit) {
          continue;
        }
        SplitMark(Initial(), vals, bits, conditional, unassigned, -lit);
        SplitIsConsistent(Initial(), vals, bits, conditional, unassigned);
        MarkBounds(s.clauses, base, Initial(), c, vals, bits, d, -lit);
        ghost var before := bits;
        bits := bits + {Abs(-lit)};
        conditional := conditional + [-lit];
        if -lit == watched {
          watched := FirstAutarky(c);
        } else {
          StillAutarky(vals, before, -lit, watched);
        }
      }
    }

    lemma SplitIsConsistent(initial: set<int>, v: set<int>, b: set<int>, con: seq<int>, una: seq<int>)
      requires Split(initial, v, b, con, una)
      ensures Consistent(initial) && v <= initial
    {
    }

    lemma StillAutarky(v: set<int>, b: set<int>, a: int, w: int)
      requires IsAutarky(v, b, a) && IsAutarky(v, b, w) && a != w && IsSplit() && vals == v && a in v && w in v
      ensures IsAutarky(v, b + {Abs(a)}, w)
    {
      SplitMeans(Initial(), vals, bits, conditional, unassigned, a);
      SplitMeans(Initial(), vals, bits, conditional, unassigned, w);
    }

    /** Visits the clause at position `j` of the list of an unassigned literal. */
    method VisitWatch(u: int, j: nat, c: Clause, watched0: int) returns (watched: int, kept: bool)
      requires Searching(c, watched0) && watched0 != 0 && u !in vals && j < |WatchesOf(occs, u)|
      requires IsRefined(WatchesOf(occs, u)[j..])
      requires forall i, x :: 0 <= i < |s.clauses| && x in s.clauses[i].lits ==> x != 0
      modifies this`bits, this`conditional, this`occs
      ensures Searching(c, watched) && old(conditional) <= conditional
      ensures |WatchesOf(occs, u)| == |old(WatchesOf(occs, u))| - if kept then 0 else 1
      ensures watched != 0 ==> IsRefined(WatchesOf(occs, u)[if kept then j + 1 else j..])
    {
      hide Split, Bounds, WatchesOk, HasTrue, Refined, NegativeAutarky, Consistent;
      watched := watched0;
      ghost var os := WatchesOf(occs, u);
      var d := WatchesOf(occs, u)[j];
      BaseMember(s.clauses, occs, base, Initial(), u, j);
      var replacement, negative := Scan(s.clauses[d].lits);
      SplitIsConsistent(Initial(), vals, bits, conditional, unassigned);
      if replacement != 0 {
        MovedOk(s.clauses, occs, base, Initial(), u, j, replacement);
        MovedRefined(s.clauses, occs, base, vals, bits, u, j, replacement);
        occs := Moved(occs, u, j, replacement, d);
        return watched, false;
      }
      if negative != 0 {
        ghost var before := bits;
        watched := TurnConditional(d, c, watched0);
        MoreBitsRefined(s.clauses, occs, base, vals, before, bits, os[j..]);
      }
      if watched != 0 {
        KeptRefined(s.clauses, occs, base, vals, bits, os, j);
      }
      kept := true;
    }

    lemma BaseMember(cs: seq<ClauseRecord>, os: Watches, b: set<int>, initial: set<int>, u: int, j: nat)
      requires WatchesOk(cs, os, b, initial) && j < |WatchesOf(os, u)|
      ensures WatchesOf(os, u)[j] in b && 0 <= WatchesOf(os, u)[j] < |cs|
    {
      var i := WatchesOf(os, u)[j];
      assert i in WatchesOf(os, u);
      assert i in b;
    }

    /** Visits all clauses watched by an unassigned literal. */
    method ProcessUnassigned(u: int, c: Clause, watched0: int) returns (watched: int)
      requires Searching(c, watched0) && watched0 != 0 && u !in vals && IsRefined(WatchesOf(occs, u))
      requires forall i, x :: 0 <= i < |s.clauses| && x in s.clauses[i].lits ==> x != 0
      modifies this`bits, this`conditional, this`occs
      ensures Searching(c, watched) && old(conditional) <= conditional
      ensures watched != 0 ==> IsRefined([])
    {
      hide Searching, Split, Bounds, WatchesOk, Refined;
      watched := watched0;
      var j := 0;
      assert WatchesOf(occs, u)[0..] == WatchesOf(occs, u);
      while watched != 0 && j < |WatchesOf(occs, u)|
        invariant Searching(c, watched) && old(conditional) <= conditional && j <= |WatchesOf(occs, u)|
        invariant watched != 0 ==> IsRefined(WatchesOf(occs, u)[j..])
        decreases |WatchesOf(occs, u)| - j
      {
        var kept;
        watched, kept := VisitWatch(u, j, c, watched);
        if kept {
          j := j + 1;
        }
      }
      if watched != 0 {
        assert WatchesOf(occs, u)[j..] == [];
      }
    }

    /** Unassigns conditional literals that do not occur negated in the candidate, until this
        changes nothing any more, no autarky literal is left in the candidate, or the limit
        is hit. */
    method Refine(c: Clause, watched0: int) returns (watched: int)
      requires Searching(c, watched0) && watched0 != 0 && unassigned == [] && IsRefined([])
      requires forall i, x :: 0 <= i < |s.clauses| && x in s.clauses[i].lits ==> x != 0
      modifies this`vals, this`bits, this`conditional, this`unassigned, this`occs, this`condprops
      ensures Searching(c, watched) && old(conditional) <= conditional && old(condprops) <= condprops
      ensures watched != 0 && condprops < limit ==>
                IsRefined([]) && forall k :: k in conditional && k in vals ==> -k in c
      ensures condprops == old(condprops) + |unassigned| && |unassigned| <= |Initial()|
    {
      hide Split, Bounds, WatchesOk, Refined, HasTrue, Consistent;
      watched := watched0;
      var nextConditional, nextUnassigned := 0, 0;
      while watched != 0 && condprops < limit && nextConditional < |conditional|
        invariant Searching(c, watched) && old(conditional) <= conditional && old(condprops) <= condprops
        invariant nextConditional <= |conditional| && nextUnassigned <= |unassigned|
        invariant watched != 0 && condprops < limit ==> IsRefined([]) && nextUnassigned == |unassigned|
        invariant forall k :: 0 <= k < nextConditional ==> conditional[k] !in vals || -conditional[k] in c
        invariant forall u :: u in unassigned ==> u in conditional[..nextConditional]
        invariant condprops == old(condprops) + |unassigned| && |unassigned| <= nextConditional
        decreases |Initial()| - nextConditional
      {
        SplitSize(Initial(), vals, bits, conditional, unassigned);
        var lit := conditional[nextConditional];
        ghost var n := nextConditional;
        nextConditional := nextConditional + 1;
        if -lit in c {
          PrefixGrows(conditional, n, unassigned);
          continue;
        }
        StillAssigned(Initial(), vals, bits, conditional, unassigned, n);
        UnassignBounds(s.clauses, base, Initial(), c, vals, bits, lit);
        UnassignRefined(s.clauses, occs, base, vals, bits, lit);
        SplitUnassign(Initial(), vals, bits, conditional, unassigned, lit);
        PrefixGrows(conditional, n, unassigned);
        AutarkyKept(c, watched, lit);
        vals := vals - {lit};
        unassigned := unassigned + [lit];
        watched, nextUnassigned := ProcessAll(c, watched, nextUnassigned, lit, conditional, nextConditional);
      }
      SplitSize(Initial(), vals, bits, conditional, unassigned);
    }

    lemma PrefixGrows(s: seq<int>, n: nat, una: seq<int>)
      requires n < |s| && forall u :: u in una ==> u in s[..n]
      ensures forall u :: u in una ==> u in s[..n + 1]
      ensures s[n] in s[..n + 1] && s[..n + 1] == s[..n] + [s[n]]
    {
    }

    /** The next conditional literal has not been unassigned before. */
    lemma StillAssigned(initial: set<int>, v: set<int>, b: set<int>, con: seq<int>, una: seq<int>, n: nat)
      requires Split(initial, v, b, con, una) && n < |con| && forall u :: u in una ==> u in con[..n]
      ensures con[n] in v && con[n] in con && Abs(con[n]) in b
    {
      assert con[n] in Lits(con);
      forall u | u in una ensures u != con[n] {
        var k :| 0 <= k < n && con[k] == u;
      }
    }

    lemma AutarkyKept(c: Clause, w: int, lit: int)
      requires AutarkyOf(c, w) && w != 0 && Abs(lit) in bits
      ensures w != lit && IsAutarky(vals - {lit}, bits, w)
    {
    }

    /** The inner worklist of unassigned literals. */
    method ProcessAll(c: Clause, watched0: int, next0: nat, lit: int, ghost con: seq<int>, ghost n: nat)
      returns (watched: int, nextUnassigned: nat)
      requires Searching(c, watched0) && watched0 != 0 && condprops < limit && con == conditional && n <= |con|
      requires next0 == |unassigned| - 1 && unassigned[next0] == lit && IsRefined(WatchesOf(occs, lit))
      requires forall i, x :: 0 <= i < |s.clauses| && x in s.clauses[i].lits ==> x != 0
      modifies this`bits, this`conditional, this`occs, this`condprops
      ensures Searching(c, watched) && con <= conditional && nextUnassigned == |unassigned|
      ensures condprops == old(condprops) + 1
      ensures watched != 0 && condprops < limit ==> IsRefined([])
    {
      hide Split, Bounds, WatchesOk, Refined, HasTrue, Consistent;
      watched, nextUnassigned := watched0, next0;
      while watched != 0 && condprops < limit && nextUnassigned < |unassigned|
        invariant Searching(c, watched) && con <= conditional && |unassigned| - 1 <= nextUnassigned <= |unassigned|
        invariant nextUnassigned < |unassigned| ==>
                    watched != 0 && condprops < limit && unassigned[nextUnassigned] == lit
                             && IsRefined(WatchesOf(occs, lit))
        invariant nextUnassigned == |unassigned| && watched != 0 ==> IsRefined([])
        invariant condprops == old(condprops) + nextUnassigned - (|unassigned| - 1)
        decreases |unassigned| - nextUnassigned
      {
        var unassignedLit := unassigned[nextUnassigned];
        nextUnassigned := nextUnassigned + 1;
        condprops := condprops + 1;
        UnassignedIsNotTrue(Initial(), vals, bits, conditional, unassigned, nextUnassigned - 1);
        if |WatchesOf(occs, unassignedLit)| == 0 {
          continue;
        }
        watched := ProcessUnassigned(unassignedLit, c, watched);
      }
    }

    lemma UnassignedIsNotTrue(initial: set<int>, v: set<int>, b: set<int>, con: seq<int>, una: seq<int>, k: nat)
      requires Split(initial, v, b, con, una) && k < |una|
      ensures una[k] !in v
    {
      assert una[k] in Lits(una);
    }

    // ------------------------------------------------------------ one candidate

    /** Pushes the autarky part and the clause. */
    method PushConditioned(c: nat) returns (ghost cube: seq<int>)
      requires s.Valid() && c < |s.clauses| && forall x :: x in trail ==> x != 0 && Abs(x) <= s.external.maxVar
      modifies s.external`extension, s.external`entries
      ensures s.external.Valid()
      ensures s.external.entries == old(s.external.entries) + [Entry(cube, s.clauses[c].id, s.clauses[c].lits)]
      ensures Lits(cube) == set a | a in trail && IsAutarky(vals, bits, a)
    {
      hide Flatten, IsAutarky;
      assert GoodRecord(s.clauses[c], s.external.maxVar);
      cube := [];
      s.external.PushZero();
      ghost var start := s.external.extension;
      assert start + cube == start;
      for i := 0 to |trail|
        invariant s.external.extension == start + cube && s.external.entries == old(s.external.entries)
        invariant Lits(cube) == set a | a in trail[..i] && IsAutarky(vals, bits, a)
      {
        assert trail[..i + 1] == trail[..i] + [trail[i]] && trail[i] in trail;
        if IsAutarky(vals, bits, trail[i]) {
          s.external.PushLiteral(trail[i]);
          assert start + cube + [trail[i]] == start + (cube + [trail[i]]);
          assert Lits(cube + [trail[i]]) == Lits(cube) + {trail[i]};
          cube := cube + [trail[i]];
        }
      }
      assert trail[..|trail|] == trail;
      assert forall x :: x in cube ==> x in Lits(cube);
      s.external.PushClause(s.clauses[c].lits, s.clauses[c].id, cube);
    }

    /** Assigns the unassigned literals again and forgets the new conditional ones. */
    method Restore(initialConditional: nat, ghost bits0: set<int>, ghost con: seq<int>)
      requires IsSplit() && initialConditional == |con| && con <= conditional && bits0 == set x | x in con :: Abs(x)
      modifies this`vals, this`bits, this`conditional, this`unassigned
      ensures IsSplit() && unassigned == [] && vals == Initial() && conditional == con && bits == bits0
    {
      hide Split;
      while unassigned != []
        invariant IsSplit() && conditional == old(conditional) && bits == old(bits)
        decreases |unassigned|
      {
        var lit := unassigned[|unassigned| - 1];
        SplitReassign(Initial(), vals, bits, conditional, unassigned);
        unassigned := unassigned[..|unassigned| - 1];
        vals := vals + {lit};
      }
      while initialConditional < |conditional|
        invariant IsSplit() && con <= conditional && unassigned == []
        decreases |conditional|
      {
        var lit := conditional[|conditional| - 1];
        SplitUnmark(Initial(), vals, bits, conditional);
        conditional := conditional[..|conditional| - 1];
        bits := bits - {Abs(lit)};
      }
      SplitBits(Initial(), vals, bits, conditional);
    }

    lemma SplitBits(initial: set<int>, v: set<int>, b: set<int>, con: seq<int>)
      requires Split(initial, v, b, con, [])
      ensures b == (set x | x in con :: Abs(x)) && v == initial
    {
      assert Lits([]) == {};
    }

    ghost predicate Good()
      reads this`base, s, s.external
    {
      && s.Valid() && (forall x :: x in trail ==> x != 0 && Abs(x) <= s.external.maxVar && s.Val(x) == 0)
      && forall i :: 0 <= i < |s.clauses| && s.clauses[i].Live() ==> i in base
    }

    lemma GoodNonZero()
      requires Good()
      ensures forall i, x :: 0 <= i < |s.clauses| && x in s.clauses[i].lits ==> x != 0
      ensures s.external.Valid()
    {
      forall i | 0 <= i < |s.clauses| ensures GoodRecord(s.clauses[i], s.external.maxVar) { }
    }

    /** Starting from the whole assignment, the largest conditional autarky for a clause. */
    method SearchAutarky(c: nat) returns (watched: int)
      requires Good() && AtRest() && c < |s.clauses|
      modifies this`vals, this`bits, this`conditional, this`unassigned, this`occs, this`condprops
      ensures Searching(s.clauses[c].lits, watched) && old(conditional) <= conditional
      ensures old(condprops) <= condprops <= old(condprops) + |Initial()|
      ensures watched == 0 ==> !Solvable(s.clauses, base, Initial(), s.clauses[c].lits)
      ensures watched != 0 && condprops < limit ==>
                Solution(s.clauses, base, Initial(), s.clauses[c].lits, set a | a in vals && IsAutarky(vals, bits, a),
                         set k | k in vals && IsConditional(vals, bits, k))
    {
      hide Split, Bounds, WatchesOk, Refined, HasTrue, Consistent, Justified, Closed, Solvable, Solution, IsAutarky,
           IsConditional;
      GoodNonZero();
      var lits := s.clauses[c].lits;
      watched := FirstAutarky(lits);
      InitialBounds(s.clauses, base, Initial(), lits, bits, conditional);
      InitialRefined(s.clauses, occs, base, Initial(), bits);
      if watched != 0 {
        watched := Refine(lits, watched);
      }
      if watched == 0 {
        NoAutarkyIn(lits);
        NoAutarkyLeft(s.clauses, base, Initial(), lits, vals, bits);
      } else if condprops < limit {
        ConditionalsNegated(lits);
        SplitIsConsistent(Initial(), vals, bits, conditional, unassigned);
        AutarkyIn(lits, watched);
        FixpointIsSolution(s.clauses, occs, base, Initial(), lits, vals, bits, watched);
      }
    }

    lemma NoAutarkyIn(c: Clause)
      requires AutarkyOf(c, 0)
      ensures forall x :: x in c ==> !IsAutarky(vals, bits, x)
    {
    }

    lemma AutarkyIn(c: Clause, w: int)
      requires AutarkyOf(c, w) && w != 0
      ensures w in c && IsAutarky(vals, bits, w)
    {
    }

    lemma ConditionalsNegated(c: Clause)
      requires IsSplit() && forall k :: k in conditional && k in vals ==> -k in c
      ensures forall k :: IsConditional(vals, bits, k) ==> -k in c
    {
      forall k | IsConditional(vals, bits, k) ensures -k in c {
        SplitMeans(Initial(), vals, bits, conditional, unassigned, k);
      }
    }

    /** Tries to globally block one candidate; the initial state is restored afterwards.  The
        clause is removed exactly if a part of the assignment globally blocks it, unless the
        limit is hit. */
    method TryCandidate(c: nat) returns (blocked: bool)
      requires Good() && s.Sound() && AtRest() && c < |s.clauses|
      modifies this`vals, this`bits, this`conditional, this`unassigned, this`occs, this`condprops,
               s`clauses, s.external`extension, s.external`entries
      ensures Good() && s.Sound() && AtRest() && conditional == old(conditional)
      ensures old(condprops) <= condprops <= old(condprops) + |Initial()|
      ensures blocked ==> condprops < limit && Solvable(old(s.clauses), base, Initial(), old(s.clauses)[c].lits)
      ensures !blocked && condprops < limit ==> !Solvable(old(s.clauses), base, Initial(), old(s.clauses)[c].lits)
      ensures s.clauses == if blocked then old(s.clauses)[c := old(s.clauses)[c].(garbage := true)] else old(s.clauses)
    {
      hide Split, Bounds, WatchesOk, Refined, HasTrue, Consistent, Justified, Closed, Solution, IsAutarky,
           IsConditional,
           FormulaOf, Reconstructs, AutarkyOf, GoodRecord, Flatten, GoodEntry;
      ghost var bits0, con, cs := bits, conditional, s.clauses;
      SplitBits(Initial(), vals, bits, conditional);
      var initialConditional := |conditional|;
      var watched := SearchAutarky(c);
      blocked := watched != 0 && condprops < limit;
      if blocked {
        RemoveConditioned(c);
        GarbageSameLits(cs, c);
      } else {
        SameLitsReflexive(cs);
      }
      Restore(initialConditional, bits0, con);
      SameLitsKeeps(cs, s.clauses, occs, base, Initial(), conditional, bits);
    }

    /** Removes the clause with the autarky part as its witness. */
    method RemoveConditioned(c: nat)
      requires Good() && s.Sound() && IsSplit() && c < |s.clauses|
      requires Solution(s.clauses, base, Initial(), s.clauses[c].lits, set a | a in vals && IsAutarky(vals, bits, a),
                        set k | k in vals && IsConditional(vals, bits, k))
      modifies s`clauses, s.external`extension, s.external`entries
      ensures Good() && s.Sound()
      ensures s.clauses == old(s.clauses)[c := old(s.clauses)[c].(garbage := true)]
    {
      hide Split, HasTrue, Solution, IsAutarky, IsConditional, FormulaOf, Reconstructs, GoodRecord, Flatten, GoodEntry;
      ghost var cs, stack := s.clauses, s.external.entries;
      ghost var autarky, k := set a | a in vals && IsAutarky(vals, bits, a), set k | k in vals
               && IsConditional(vals, bits, k);
      SplitIsConsistent(Initial(), vals, bits, conditional, unassigned);
      TrailAutarky(trail, vals, bits);
      InitialIsFree();
      ghost var cube := PushConditioned(c);
      ConditionKeeps(s.original, cs, base, Initial(), s.fixedLits, c, autarky, k, cube, stack, s.external.maxVar);
      GarbageRecords(cs, c, s.external.maxVar);
      s.MarkGarbage(c);
    }

    lemma InitialIsFree()
      requires Good()
      ensures forall x :: x in Initial() ==> x !in s.fixedLits && -x !in s.fixedLits
    {
      forall x | x in Initial() ensures x !in s.fixedLits && -x !in s.fixedLits {
        assert x in trail && s.Val(x) == 0;
      }
    }

    lemma GarbageSameLits(cs: seq<ClauseRecord>, c: nat)
      requires c < |cs|
      ensures SameLits(cs, cs[c := cs[c].(garbage := true)])
    {
    }

    lemma SameLitsReflexive(cs: seq<ClauseRecord>)
      ensures SameLits(cs, cs)
    {
    }

    // ------------------------------------------------------------ the whole round

    /** Counts true and false literals and picks the true one that is watched least. */
    method Inspect(c: Clause) returns (satisfied: bool, positive: nat, negative: nat, watch: int)
      requires 0 !in c && Consistent(vals)
      ensures satisfied <==> HasTrue(c, s.fixedLits)
      ensures !satisfied ==> (positive > 0 <==> HasTrue(c, vals)) && (negative > 0 <==> Touched(c, vals))
      ensures !satisfied && positive > 0 ==> watch in c && watch in vals
    {
      satisfied, positive, negative, watch := false, 0, 0, 0;
      var minSize := 0;
      for l := 0 to |c|
        invariant !satisfied && forall k :: 0 <= k < l ==> c[k] !in s.fixedLits
        invariant positive > 0 <==> exists k :: 0 <= k < l && c[k] in vals
        invariant negative > 0 ==> exists k :: 0 <= k < l && -c[k] in vals
        invariant negative == 0 ==> forall k :: 0 <= k < l ==> -c[k] !in vals
        invariant positive > 0 ==> watch in c && watch in vals
      {
        var lit := c[l];
        assert lit in c;
        if lit in s.fixedLits {
          return true, 0, 0, 0;
        }
        if lit in vals {
          var size := |WatchesOf(occs, lit)|;
          if positive == 0 || size < minSize {
            watch, minSize := lit, size;
          }
          positive := positive + 1;
        } else if -lit in vals {
          negative := negative + 1;
        }
      }
      if negative > 0 {
        ghost var k :| 0 <= k < |c| && -c[k] in vals;
        assert c[k] in c;
      }
    }

    /** Marks the false literals of a clause without a true one as conditional. */
    method MarkConditionals(i: int)
      requires IsSplit() && 0 <= i < |s.clauses| && i in base && !HasTrue(s.clauses[i].lits, Initial())
      requires unassigned == [] && vals == Initial() && Justified(s.clauses, base, Initial(), conditional)
      modifies this`bits, this`conditional
      ensures IsSplit() && Justified(s.clauses, base, Initial(), conditional) && old(bits) <= bits
      ensures !NegativeAutarky(s.clauses[i].lits, Initial(), bits)
    {
      hide Split, HasTrue, Justified;
      var lits := s.clauses[i].lits;
      for l := 0 to |lits|
        invariant IsSplit() && Justified(s.clauses, base, Initial(), conditional) && old(bits) <= bits
        invariant forall k :: 0 <= k < l ==> !IsAutarky(vals, bits, -lits[k])
      {
        var lit := lits[l];
        assert lit in lits;
        if -lit !in vals || IsConditional(vals, bits, -lit) {
          continue;
        }
        SplitMark(Initial(), vals, bits, conditional, [], -lit);
        JustifiedMore(s.clauses, base, Initial(), conditional, i, -lit);
        bits := bits + {Abs(-lit)};
        conditional := conditional + [-lit];
      }
    }

    lemma JustifiedMore(cs: seq<ClauseRecord>, b: set<int>, initial: set<int>, con: seq<int>, d: int, a: int)
      requires Justified(cs, b, initial, con) && d in b && 0 <= d < |cs| && -a in cs[d].lits
      requires !HasTrue(cs[d].lits, initial)
      ensures Justified(cs, b, initial, con + [a])
    {
      hide HasTrue;
    }

    /** The candidates so far are the clauses of the base with a true literal. */
    ghost predicate CandidatesIn(cs: seq<ClauseRecord>)
      reads `candidates, `base
    {
      && (forall i :: i in candidates <==> i in base && 0 <= i < |cs| && HasTrue(cs[i].lits, Initial()))
      && NoDuplicates(candidates)
    }

    method DropSatisfied(i: nat)
      requires s.Valid() && s.Sound() && AtRest() && CandidatesIn(s.clauses) && i < |s.clauses| && s.clauses[i].Live()
      requires HasTrue(s.clauses[i].lits, s.fixedLits)
      modifies s`clauses
      ensures s.Valid() && s.Sound() && AtRest() && CandidatesIn(s.clauses)
      ensures s.clauses == old(s.clauses)[i := old(s.clauses)[i].(garbage := true)]
    {
      hide Split, HasTrue, Justified, Closed, WatchesOk, FormulaOf, Reconstructs, GoodRecord;
      ghost var cs := s.clauses;
      SatisfiedKeepsSound(s.original, cs, s.fixedLits, s.external.entries, i);
      GarbageRecords(cs, i, s.external.maxVar);
      GarbageSameLits(cs, i);
      s.MarkGarbage(i);
      SameLitsKeeps(cs, s.clauses, occs, base, Initial(), conditional, bits);
      CandidatesSame(cs, s.clauses);
    }

    /** Looks at one clause: it becomes garbage if it is satisfied at the root, and otherwise a
        candidate, watched, or the reason for conditional literals. */
    method PrepareClause(i: nat)
      requires s.Valid() && s.Sound() && AtRest() && CandidatesIn(s.clauses) && i < |s.clauses| && s.clauses[i].Live()
      requires i !in base
      modifies this`bits, this`conditional, this`occs, this`candidates, this`base, s`clauses
      ensures s.Valid() && s.Sound() && AtRest() && CandidatesIn(s.clauses)
      ensures if HasTrue(old(s.clauses)[i].lits, s.fixedLits)
              then base == old(base) && s.clauses == old(s.clauses)[i := old(s.clauses)[i].(garbage := true)]
              else base == old(base) + {i} && s.clauses == old(s.clauses)
    {
      hide Split, HasTrue, Justified, Closed, WatchesOk, FormulaOf, Reconstructs, GoodRecord, Touched, NegativeAutarky;
      assert GoodRecord(s.clauses[i], s.external.maxVar);
      GoodIsNonZero(s.clauses[i], s.external.maxVar);
      SplitIsConsistent(Initial(), vals, bits, conditional, unassigned);
      ghost var cs := s.clauses;
      var lits := s.clauses[i].lits;
      var satisfied, positive, negative, watch := Inspect(lits);
      if satisfied {
        DropSatisfied(i);
        return;
      }
      BaseGrows(cs, occs, base, Initial(), conditional, bits, i, watch);
      base := base + {i};
      if positive > 0 {
        candidates := candidates + [i];
      }
      if negative > 0 && positive > 0 {
        occs := occs[watch := WatchesOf(occs, watch) + [i]];
      }
      if negative > 0 && positive == 0 {
        ghost var before := bits;
        MarkConditionals(i);
        MoreBitsClosed(cs, base - {i}, Initial(), before, bits);
        ClosedWith(cs, base - {i}, Initial(), bits, i);
        assert base - {i} + {i} == base;
      } else {
        NotTouched(lits, Initial(), bits);
        ClosedWith(cs, base - {i}, Initial(), bits, i);
        assert base - {i} + {i} == base;
      }
    }

    lemma NotTouched(c: Clause, initial: set<int>, b: set<int>)
      ensures !Touched(c, initial) ==> !NegativeAutarky(c, initial, b)
    {
    }

    lemma MoreBitsClosed(cs: seq<ClauseRecord>, b: set<int>, initial: set<int>, bits0: set<int>, bits1: set<int>)
      requires Closed(cs, b, initial, bits0) && bits0 <= bits1
      ensures Closed(cs, b, initial, bits1)
    {
      hide HasTrue;
      forall d | d in b && 0 <= d < |cs| && NegativeAutarky(cs[d].lits, initial, bits1)
        ensures NegativeAutarky(cs[d].lits, initial, bits0)
      {
        var x :| x in cs[d].lits && IsAutarky(initial, bits1, -x);
        assert IsAutarky(initial, bits0, -x);
      }
    }

    lemma ClosedWith(cs: seq<ClauseRecord>, b: set<int>, initial: set<int>, bs: set<int>, i: int)
      requires Closed(cs, b, initial, bs) && 0 <= i < |cs|
      requires HasTrue(cs[i].lits, initial) || !NegativeAutarky(cs[i].lits, initial, bs)
      ensures Closed(cs, b + {i}, initial, bs)
    {
      hide HasTrue, NegativeAutarky;
    }

    /** A larger base, with the new clause watched by a true literal if necessary. */
    lemma BaseGrows(cs: seq<ClauseRecord>, os: Watches, b: set<int>, initial: set<int>, con: seq<int>, bs: set<int>,
                    i: int, w: int)
      requires WatchesOk(cs, os, b, initial) && Justified(cs, b, initial, con) && 0 <= i < |cs| && i !in b
      ensures Justified(cs, b + {i}, initial, con)
      ensures !(Touched(cs[i].lits, initial) && HasTrue(cs[i].lits, initial)) ==> WatchesOk(cs, os, b + {i}, initial)
      ensures w in cs[i].lits && w in initial ==> WatchesOk(cs, os[w := WatchesOf(os, w) + [i]], b + {i}, initial)
    {
      hide HasTrue, Touched;
      if w in cs[i].lits && w in initial {
        var os' := os[w := WatchesOf(os, w) + [i]];
        assert i in WatchesOf(os', w);
        forall k | Watched(cs, os, initial, k) ensures Watched(cs, os', initial, k) {
          var x :| x in initial && x in cs[k].lits && k in WatchesOf(os, x);
          assert k in WatchesOf(os', x);
        }
        forall x, k | k in WatchesOf(os', x) ensures k in b + {i} {
          assert k in WatchesOf(os, x) || k == i;
        }
      }
    }

    lemma CandidatesSame(cs: seq<ClauseRecord>, ds: seq<ClauseRecord>)
      requires SameLits(cs, ds) && CandidatesIn(cs)
      ensures CandidatesIn(ds)
    {
      hide HasTrue;
    }

    /** A clause that was live and is not in the base has become garbage. */
    ghost predicate Inspected(before: ClauseRecord, after: ClauseRecord, i: int)
      reads `base
    {
      after == before.(garbage := before.garbage || (before.Live() && i !in base))
    }

    /** Looks at all clauses. */
    method Prepare()
      requires s.Valid() && s.Sound() && AtRest() && conditional == [] && candidates == [] && base == {}
      requires forall x :: x in trail ==> x != 0 && Abs(x) <= s.external.maxVar && s.Val(x) == 0
      modifies this`bits, this`conditional, this`occs, this`candidates, this`base, s`clauses
      ensures Good() && s.Sound() && AtRest() && CandidatesIn(s.clauses) && |s.clauses| == |old(s.clauses)|
      ensures forall i :: i in base <==>
                0 <= i < |s.clauses| && old(s.clauses)[i].Live() && !HasTrue(old(s.clauses)[i].lits, s.fixedLits)
      ensures forall i :: 0 <= i < |s.clauses| ==> Inspected(old(s.clauses)[i], s.clauses[i], i)
    {
      hide IsSplit, HasTrue, Justified, Closed, WatchesOk, FormulaOf, Reconstructs, GoodRecord, Touched,
           NegativeAutarky;
      for i := 0 to |s.clauses|
        invariant s.Valid() && s.Sound() && AtRest() && CandidatesIn(s.clauses) && |s.clauses| == |old(s.clauses)|
        invariant forall k :: k in base <==>
                    0 <= k < i && old(s.clauses)[k].Live() && !HasTrue(old(s.clauses)[k].lits, s.fixedLits)
        invariant forall k :: i <= k < |s.clauses| ==> s.clauses[k] == old(s.clauses)[k]
        invariant forall k :: 0 <= k < i ==> Inspected(old(s.clauses)[k], s.clauses[k], k)
      {
        if !s.clauses[i].garbage && !s.clauses[i].redundant {
          PrepareClause(i);
        }
      }
    }

    /** The whole round.  Clauses that are satisfied at the root become garbage.  The other live clauses with a
        literal that is true under the assignment are the candidates; the first `tried` of them are decided,
        which are all unless the limit is hit: reasons of assigned literals excepted, exactly those are
        removed that a part of the assignment globally blocks.  Nothing else changes, and each candidate
        costs at most one propagation for each assigned literal. */
    method ConditionRound(reasons: set<int>) returns (ghost tried: nat)
      requires s.Valid() && s.Sound() && AtRest() && conditional == [] && candidates == [] && base == {}
      requires forall x :: x in trail ==> x != 0 && Abs(x) <= s.external.maxVar && s.Val(x) == 0
      requires NoDuplicates(trail)
      modifies this`vals, this`bits, this`conditional, this`unassigned, this`occs, this`condprops, this`candidates,
               this`base, s`clauses, s.external`extension, s.external`entries
      ensures s.Valid() && s.Sound() && |s.clauses| == |old(s.clauses)| && vals == old(vals)
      ensures forall i :: i in base <==>
                0 <= i < |s.clauses| && old(s.clauses)[i].Live() && !HasTrue(old(s.clauses)[i].lits, s.fixedLits)
      ensures NoDuplicates(candidates) && forall i :: i in candidates <==>
                i in base && 0 <= i < |s.clauses| && HasTrue(old(s.clauses)[i].lits, Initial())
      ensures forall i :: 0 <= i < |s.clauses| ==> Decided(old(s.clauses)[i], s.clauses[i], i)
      ensures tried <= |candidates| && (condprops < limit ==> tried == |candidates|)
      ensures forall i :: i in base && 0 <= i < |s.clauses| && s.clauses[i].garbage ==>
                i in candidates[..tried] && i !in reasons
      ensures forall i :: i in candidates[..tried] && i !in reasons && 0 <= i < |s.clauses| ==>
                s.clauses[i].garbage == Solvable(s.clauses, base, Initial(), s.clauses[i].lits)
      ensures condprops <= old(condprops) + (tried + 1) * |Initial()|
    {
      hide Split, HasTrue, Justified, Closed, WatchesOk, FormulaOf, Reconstructs, GoodRecord, Solvable, Progress,
           Decided, CandidatesIn, Good, AtRest;
      RestMeans();
      Prepare();
      InspectedIsDecided(old(s.clauses));
      ghost var n, b, cands := |Initial()|, base, candidates;
      var autarky := |trail| - |conditional|;
      DistinctSize(trail);
      var k := 0;
      tried := 0;
      assert candidates[..k] == [];
      ProgressStart(s.clauses, base, Initial(), reasons);
      while k < |candidates| && autarky > 0 && condprops < limit
        invariant Good() && s.Sound() && AtRest() && CandidatesIn(s.clauses) && tried <= k <= |candidates|
        invariant autarky == n - |conditional| && |s.clauses| == |old(s.clauses)|
        invariant Progress(s.clauses, base, Initial(), candidates[..tried], reasons)
        invariant (condprops < limit ==> tried == k) && base == b && candidates == cands
        invariant condprops <= old(condprops) + (if tried == k then tried else tried + 1) * n
        invariant forall i :: 0 <= i < |s.clauses| ==> Decided(old(s.clauses)[i], s.clauses[i], i)
      {
        var c := candidates[k];
        CandidateMeans(k);
        ghost var cs := s.clauses;
        if c in reasons {
          ProgressSkip(cs, base, Initial(), candidates, k, reasons);
          OneMoreTried(tried, n);
          tried := k + 1;
        } else {
          CandidateIsLive(cs, base, Initial(), candidates, k, reasons);
          var blocked := TryCandidate(c);
          OneMoreTried(tried, n);
          if condprops < limit {
            ProgressStep(cs, s.clauses, base, Initial(), candidates, k, reasons, blocked);
            tried := k + 1;
          }
          SameWithGarbage(cs, c, blocked);
          StillDecided(old(s.clauses), cs, s.clauses, c, blocked);
          CandidatesSame(cs, s.clauses);
        }
        k := k + 1;
      }
      if condprops < limit && tried < |candidates| {
        CandidatesInBase();
        RestMeans();
        ProgressEnd(s.clauses, base, Initial(), candidates, tried, reasons, bits, conditional);
        OneMoreTried(tried, n);
        MoreTried(tried, |candidates|, n);
        assert candidates[..|candidates|] == candidates;
        tried := |candidates|;
      }
      ProgressMeans(s.clauses, base, Initial(), candidates[..tried], reasons);
      CandidatesWere(old(s.clauses));
      OneMoreTried(tried, n);
      RestMeans();
    }

    lemma RestMeans()
      ensures AtRest() ==> vals == Initial() && Split(Initial(), Initial(), bits, conditional, [])
      ensures AtRest() ==> Justified(s.clauses, base, Initial(), conditional)
      ensures Good() ==> s.Valid()
    {
      hide Split, Justified, Closed, WatchesOk;
    }

    /** The candidates told from the clauses before the round. */
    lemma CandidatesWere(cs: seq<ClauseRecord>)
      requires CandidatesIn(s.clauses) && |cs| == |s.clauses|
      requires forall i :: 0 <= i < |cs| ==> Decided(cs[i], s.clauses[i], i)
      ensures NoDuplicates(candidates) && forall i :: i in candidates <==>
                i in base && 0 <= i < |s.clauses| && HasTrue(cs[i].lits, Initial())
    {
      hide HasTrue;
      forall i | 0 <= i < |cs| ensures HasTrue(cs[i].lits, Initial()) == HasTrue(s.clauses[i].lits, Initial()) {
        assert Decided(cs[i], s.clauses[i], i);
      }
    }

    /** The effect on one clause: only candidates and clauses that are satisfied at the root become garbage. */
    ghost predicate Decided(before: ClauseRecord, after: ClauseRecord, i: int)
      reads `base
    {
      && after == before.(garbage := after.garbage) && (before.garbage ==> after.garbage)
      && (i !in base ==> after.garbage == (before.garbage || before.Live()))
    }

    lemma InspectedIsDecided(cs: seq<ClauseRecord>)
      requires |cs| == |s.clauses| && forall i :: 0 <= i < |cs| ==> Inspected(cs[i], s.clauses[i], i)
      requires forall i :: i in base && 0 <= i < |cs| ==> cs[i].Live()
      ensures forall i :: 0 <= i < |cs| ==> Decided(cs[i], s.clauses[i], i)
    {
    }

    lemma StillDecided(cs: seq<ClauseRecord>, ds: seq<ClauseRecord>, es: seq<ClauseRecord>, c: nat, blocked: bool)
      requires c < |cs| == |ds| && c in base && (forall i :: 0 <= i < |cs| ==> Decided(cs[i], ds[i], i))
      requires es == if blocked then ds[c := ds[c].(garbage := true)] else ds
      ensures forall i :: 0 <= i < |cs| ==> Decided(cs[i], es[i], i)
    {
    }

    lemma OneMoreTried(k: nat, n: nat)
      ensures k * n <= (k + 1) * n == k * n + n
    {
    }

    lemma MoreTried(k: nat, m: nat, n: nat)
      requires k <= m
      ensures (k + 1) * n <= (m + 1) * n
    {
    }

    lemma SameWithGarbage(cs: seq<ClauseRecord>, c: nat, blocked: bool)
      requires c < |cs|
      ensures SameLits(cs, if blocked then cs[c := cs[c].(garbage := true)] else cs)
    {
    }

    lemma CandidatesInBase()
      requires CandidatesIn(s.clauses)
      ensures NoDuplicates(candidates) && forall i :: i in candidates ==> i in base
    {
    }

    lemma CandidateMeans(k: nat)
      requires CandidatesIn(s.clauses) && k < |candidates|
      ensures candidates[k] in base && 0 <= candidates[k] < |s.clauses| && NoDuplicates(candidates)
    {
      hide HasTrue;
      assert candidates[k] in candidates;
    }

    lemma ProgressMeans(cs: seq<ClauseRecord>, b: set<int>, initial: set<int>, done: seq<int>, reasons: set<int>)
      requires Progress(cs, b, initial, done, reasons)
      ensures forall i :: i in b && 0 <= i < |cs| && cs[i].garbage ==> i in done && i !in reasons
      ensures forall i :: i in done && i !in reasons && 0 <= i < |cs| ==>
                cs[i].garbage == Solvable(cs, b, initial, cs[i].lits)
    {
    }
  }
}
