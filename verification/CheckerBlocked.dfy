/** The blocked-clause test of the proof checker, and when it may be trusted. */
module CheckerBlocked {
  import opened Cnf
  import opened Lists
  import opened Propagation
  import opened HashTable
  import opened CheckerState
  import Extension
  import Reconstruction

  // ---------------------------------------------------------------- the test

  /** Every unsatisfied stored clause with the negation of `l` contains the negation of
      another literal of the clause as well. */
  ghost predicate Survives(mem: Memory, trail: seq<int>, c: Clause, l: int) {
    && l in c
    && forall r :: Live(mem, r) && !SatisfiedBy(mem[r].lits, trail) && -l in mem[r].lits ==>
         exists x :: x in mem[r].lits && x != -l && -x in c
  }

  ghost predicate OnlyMarked(c: Clause, marks: set<int>, x: int) {
    x in c && x in marks && forall y :: y in c && y in marks ==> y == x
  }

  /** Some of the given clauses is not satisfied and has `x` as its only marked literal. */
  ghost predicate Spoiled(mem: Memory, refs: set<int>, trail: seq<int>, marks: set<int>, x: int) {
    exists r :: r in refs && r in mem && !SatisfiedBy(mem[r].lits, trail) && OnlyMarked(mem[r].lits, marks, x)
  }

  /** Counts marked literals; two stands for a satisfied clause as well. */
  method CountMarked(c: Clause, marks: set<int>, trail: seq<int>) returns (count: nat, first: int)
    requires forall i, j :: 0 <= i < j < |c| ==> c[i] != c[j]
    ensures count == 1 ==> !SatisfiedBy(c, trail) && OnlyMarked(c, marks, first)
    ensures forall x :: !SatisfiedBy(c, trail) && OnlyMarked(c, marks, x) ==> count == 1 && first == x
  {
    count, first := 0, 0;
    for i := 0 to |c|
      invariant forall k :: 0 <= k < i ==> c[k] !in trail
      invariant count == 0 ==> forall k :: 0 <= k < i ==> c[k] !in marks
      invariant count > 0 ==> exists k :: 0 <= k < i && c[k] == first && first in marks
      invariant count == 1 ==> forall k :: 0 <= k < i && c[k] in marks ==> c[k] == first
      invariant count > 1 ==> exists j, k :: 0 <= j < k < i && c[j] in marks && c[k] in marks
    {
      if c[i] in trail {
        assert c[i] in c;
        return 2, first;
      }
      if c[i] in marks {
        count := count + 1;
        first := c[i];
      }
    }
  }

  /** Some literal of the clause survives. */
  method CheckBlocked(mem: Memory, buckets: Buckets, trail: seq<int>, c: Clause) returns (blocked: bool)
    requires GoodMemory(mem) && HoldsRefs(mem, buckets, LiveRefs(mem))
    ensures blocked <==> exists l :: Survives(mem, trail, c, l)
  {
    hide HoldsRefs, Spoiled, BucketOf, OnlyMarked, SatisfiedBy;
    ghost var refs := LiveRefs(mem);
    var marks := set x | x in c :: -x;
    var notBlocked: seq<int> := [];
    ghost var done: set<int> := {};
    NoneSpoiled(mem, trail, marks);
    for i := 0 to |buckets|
      invariant done == Flat(buckets, i)
      invariant forall x :: x in notBlocked <==> Spoiled(mem, done, trail, marks, x)
    {
      notBlocked := ScanChain(mem, buckets, trail, marks, i, notBlocked, done);
      done := done + Members(buckets[i]);
    }
    AllDone(mem, buckets, refs, done);
    var left := marks - set x | x in notBlocked;
    blocked := false;
    ghost var marked := left;
    for i := 0 to |c|
      invariant blocked <==> exists k :: 0 <= k < i && -c[k] in marked
      invariant forall x :: x in left <==> x in marked && forall k :: 0 <= k < i ==> -c[k] != x
    {
      if -c[i] in left {
        blocked := true;
      }
      left := left - {-c[i]};
    }
    forall l | l in c ensures -l in marked <==> Survives(mem, trail, c, l) {
      assert -l in marks;
      SpoiledMeans(mem, trail, c, marks, l);
    }
    assert blocked <==> exists l :: l in c && -l in marked;
  }

  /** Collects the only marked literals of the clauses of one chain. */
  method ScanChain(mem: Memory, buckets: Buckets, trail: seq<int>, marks: set<int>, i: nat, before: seq<int>,
                   ghost done: set<int>)
    returns (notBlocked: seq<int>)
    requires GoodMemory(mem) && HoldsRefs(mem, buckets, LiveRefs(mem)) && i < |buckets|
    requires forall x :: x in before <==> Spoiled(mem, done, trail, marks, x)
    ensures forall x :: x in notBlocked <==> Spoiled(mem, done + Members(buckets[i]), trail, marks, x)
  {
    hide HoldsRefs, Spoiled, BucketOf, OnlyMarked, SatisfiedBy;
    notBlocked := before;
    assert done + Members(buckets[i][..0]) == done;
    for k := 0 to |buckets[i]|
      invariant forall x :: x in notBlocked <==> Spoiled(mem, done + Members(buckets[i][..k]), trail, marks, x)
    {
      var r := buckets[i][k];
      InTable(mem, buckets, i, k);
      assert GoodClause(mem[r]);
      var count, first := CountMarked(mem[r].lits, marks, trail);
      SpoiledOneMore(mem, done + Members(buckets[i][..k]), trail, marks, r, count, first);
      assert done + Members(buckets[i][..k + 1]) == done + Members(buckets[i][..k]) + {r} by {
        assert buckets[i][..k + 1] == buckets[i][..k] + [r];
      }
      if count == 1 {
        notBlocked := notBlocked + [first];
      }
    }
    assert buckets[i][..|buckets[i]|] == buckets[i];
  }

  lemma NoneSpoiled(mem: Memory, trail: seq<int>, marks: set<int>)
    ensures forall x :: !Spoiled(mem, {}, trail, marks, x)
  {
  }

  lemma SpoiledOneMore(mem: Memory, refs: set<int>, trail: seq<int>, marks: set<int>, r: int, count: nat, first: int)
    requires r in mem
    requires count == 1 ==> !SatisfiedBy(mem[r].lits, trail) && OnlyMarked(mem[r].lits, marks, first)
    requires forall x :: !SatisfiedBy(mem[r].lits, trail) && OnlyMarked(mem[r].lits, marks, x) ==>
               count == 1 && first == x
    ensures forall x :: Spoiled(mem, refs + {r}, trail, marks, x)
                        <==> Spoiled(mem, refs, trail, marks, x) || (count == 1 && x == first)
  {
    hide OnlyMarked, SatisfiedBy;
    forall x | Spoiled(mem, refs, trail, marks, x) || (count == 1 && x == first)
      ensures Spoiled(mem, refs + {r}, trail, marks, x)
    {
      if count == 1 && x == first {
        assert r in refs + {r};
      } else {
        var q :| q in refs && q in mem && !SatisfiedBy(mem[q].lits, trail) && OnlyMarked(mem[q].lits, marks, x);
        assert q in refs + {r};
      }
    }
  }

  lemma SpoiledMeans(mem: Memory, trail: seq<int>, c: Clause, marks: set<int>, l: int)
    requires l in c && marks == set x | x in c :: -x
    ensures Spoiled(mem, LiveRefs(mem), trail, marks, -l) <==> !Survives(mem, trail, c, l)
  {
    hide SatisfiedBy;
    assert -l in marks;
    forall x ensures x in marks <==> -x in c {
      if -x in c {
        assert -(-x) in marks;
      }
    }
  }

  // ---------------------------------------------------------------- what it means

  /** What the checker still knows: unsatisfied live clauses and the units on the trail. */
  ghost function RootFormula(mem: Memory, trail: seq<int>): Formula {
    (set r | r in mem && mem[r].size != 0 && !SatisfiedBy(mem[r].lits, trail) :: Lits(mem[r].lits))
    + set u | u in trail :: {u}
  }

  /** The test looks only at stored clauses and does not see the units: a surviving literal
      blocks the clause exactly if the root assignment does not falsify it. */
  lemma BlockedIffUnassigned(mem: Memory, trail: seq<int>, c: Clause, l: int)
    ensures l in c && Reconstruction.Blocked(RootFormula(mem, trail), Lits(c), l)
            <==> Survives(mem, trail, c, l) && -l !in trail
  {
    var f := RootFormula(mem, trail);
    if l in c && Reconstruction.Blocked(f, Lits(c), l) {
      assert -l in trail ==> {-l} in f;
      forall r | Live(mem, r) && !SatisfiedBy(mem[r].lits, trail) && -l in mem[r].lits
        ensures exists x :: x in mem[r].lits && x != -l && -x in c
      {
        assert Lits(mem[r].lits) in f;
        var x :| x in Lits(mem[r].lits) && x != -l && -x in Lits(c);
      }
    }
    if Survives(mem, trail, c, l) && -l !in trail {
      forall d | d in f && -l in d ensures exists x :: x in d && x != -l && -x in Lits(c) {
        assert forall u :: u in trail && d == {u} ==> -l == u;
        var r :| r in mem && mem[r].size != 0 && !SatisfiedBy(mem[r].lits, trail) && d == Lits(mem[r].lits);
        var x :| x in mem[r].lits && x != -l && -x in c;
        assert x in d;
      }
    }
  }

  /** Adding a blocked clause keeps satisfiability. */
  lemma BlockedKeepsSatisfiable(f: Formula, c: Clause, l: int)
    requires NonZeroFormula(f) && 0 !in c && l in c && Reconstruction.Blocked(f, Lits(c), l)
    ensures Satisfiable(f) <==> Satisfiable(f + {Lits(c)})
  {
    Reconstruction.BlockedRestores(f, c, l, 0);
    forall m | Models(m, f + {Lits(c)}) ensures Models(m, f) {
      ModelsUnion(m, f, {Lits(c)});
    }
    forall m | Models(m, f) ensures Satisfiable(f + {Lits(c)}) {
      assert Models(Extension.Replay([Extension.Entry([l], 0, c)], m), f + {Lits(c)});
    }
  }

  /** A clause accepted for a literal without a root value keeps satisfiability. */
  lemma AcceptedKeepsSatisfiable(mem: Memory, trail: seq<int>, c: Clause, l: int)
    requires GoodMemory(mem) && GoodTrail(trail) && 0 !in c
    requires Survives(mem, trail, c, l) && -l !in trail
    ensures Satisfiable(RootFormula(mem, trail)) <==> Satisfiable(RootFormula(mem, trail) + {Lits(c)})
  {
    var f := RootFormula(mem, trail);
    BlockedIffUnassigned(mem, trail, c, l);
    forall s | s in f ensures NonZero(s) {
      assert forall r :: r in mem ==> GoodClause(mem[r]);
    }
    BlockedKeepsSatisfiable(f, c, l);
  }

  /** A clause whose only surviving literal is falsified at the root is accepted although it
      makes a satisfiable formula unsatisfiable. */
  lemma FalsifiedSurvivorIsAccepted(mem: Memory, trail: seq<int>, c: Clause)
    requires mem == map[] && trail == [-1] && c == [1]
    ensures Survives(mem, trail, c, 1)
    ensures Satisfiable(RootFormula(mem, trail)) && !Satisfiable(RootFormula(mem, trail) + {Lits(c)})
  {
    var f := RootFormula(mem, trail);
    assert f == {{-1}} by {
      assert -1 in trail;
    }
    assert Models({}, f) by {
      assert True({}, -1) && Holds({}, {-1});
    }
    forall m ensures !Models(m, f + {Lits(c)}) {
      assert {-1} in f + {Lits(c)} && Lits(c) in f + {Lits(c)};
      assert Lits(c) == {1};
    }
  }

  // ---------------------------------------------------------------- deleted binary clauses

  /** A binary clause that was deleted, but whose memory was not freed yet. */
  predicate Lingers(c: CheckerClause) {
    c.size == 0 && |c.lits| == 2
  }

  /** What is still propagated: deleted binary clauses have their watches until they are freed. */
  ghost function UsedFormula(mem: Memory, trail: seq<int>): Formula {
    RootFormula(mem, trail)
    + set r | r in mem && Lingers(mem[r]) && !SatisfiedBy(mem[r].lits, trail) :: Lits(mem[r].lits)
  }

  /** The survivor is not falsified and clashes with the deleted binary clauses as well. */
  ghost predicate Trusted(mem: Memory, trail: seq<int>, c: Clause, l: int) {
    && Survives(mem, trail, c, l) && -l !in trail
    && forall r :: r in mem && Lingers(mem[r]) && !SatisfiedBy(mem[r].lits, trail) && -l in mem[r].lits ==>
         exists x :: x in mem[r].lits && x != -l && -x in c
  }

  /** Satisfied clauses are implied by the units. */
  lemma UsedFormulaMeans(m: Assignment, mem: Memory, trail: seq<int>)
    ensures Models(m, UsedFormula(mem, trail)) <==>
            Extends(m, Lits(trail)) && forall r :: r in mem && Used(mem[r]) ==> Holds(m, Lits(mem[r].lits))
  {
    var f := UsedFormula(mem, trail);
    if Models(m, f) {
      forall u | u in trail ensures True(m, u) {
        assert {u} in f && Holds(m, {u});
      }
      forall r | r in mem && Used(mem[r]) ensures Holds(m, Lits(mem[r].lits)) {
        if SatisfiedBy(mem[r].lits, trail) {
          var x :| x in mem[r].lits && x in trail;
          assert x in Lits(mem[r].lits);
        } else {
          assert Lits(mem[r].lits) in f;
        }
      }
    }
    if Extends(m, Lits(trail)) {
      forall u | u in trail ensures Holds(m, {u}) {
        assert u in Lits(trail) && u in {u};
      }
    }
  }

  /** A surviving literal blocks the clause in what is propagated exactly if it is not falsified and
      no deleted binary clause stands against it. */
  lemma BlockedIffTrusted(mem: Memory, trail: seq<int>, c: Clause, l: int)
    ensures l in c && Reconstruction.Blocked(UsedFormula(mem, trail), Lits(c), l) <==> Trusted(mem, trail, c, l)
  {
    hide SatisfiedBy, RootFormula;
    BlockedIffUnassigned(mem, trail, c, l);
    var f := UsedFormula(mem, trail);
    if l in c && Reconstruction.Blocked(f, Lits(c), l) {
      assert forall d :: d in RootFormula(mem, trail) ==> d in f;
      forall r | r in mem && Lingers(mem[r]) && !SatisfiedBy(mem[r].lits, trail) && -l in mem[r].lits
        ensures exists x :: x in mem[r].lits && x != -l && -x in c
      {
        assert Lits(mem[r].lits) in f;
        var x :| x in Lits(mem[r].lits) && x != -l && -x in Lits(c);
      }
    }
    if Trusted(mem, trail, c, l) {
      forall d | d in f && -l in d ensures exists x :: x in d && x != -l && -x in Lits(c) {
        if d !in RootFormula(mem, trail) {
          var r :| r in mem && Lingers(mem[r]) && !SatisfiedBy(mem[r].lits, trail) && d == Lits(mem[r].lits);
          var x :| x in mem[r].lits && x != -l && -x in c;
          assert x in d;
        }
      }
    }
  }

  /** A clause accepted for such a literal keeps what is propagated satisfiable. */
  lemma TrustedKeepsSatisfiable(mem: Memory, trail: seq<int>, c: Clause, l: int)
    requires GoodMemory(mem) && GoodTrail(trail) && 0 !in c && Trusted(mem, trail, c, l)
    ensures Satisfiable(UsedFormula(mem, trail)) <==> Satisfiable(UsedFormula(mem, trail) + {Lits(c)})
  {
    var f := UsedFormula(mem, trail);
    BlockedIffTrusted(mem, trail, c, l);
    forall s | s in f ensures NonZero(s) {
      assert forall r :: r in mem ==> GoodClause(mem[r]);
    }
    BlockedKeepsSatisfiable(f, c, l);
  }

  /** What is used follows from a formula exactly if clauses and trail do. */
  lemma UsedImpliesUsed(f: Formula, mem: Memory, trail: seq<int>)
    requires UsedImplied(f, mem) && TrailImplied(f, {}, trail)
    ensures forall m :: Models(m, f) ==> Models(m, UsedFormula(mem, trail))
    ensures UsedImplied(UsedFormula(mem, trail), mem) && TrailImplied(UsedFormula(mem, trail), {}, trail)
  {
    forall m | Models(m, f) ensures Models(m, UsedFormula(mem, trail)) {
      assert Extends(m, {});
      UsedFormulaMeans(m, mem, trail);
    }
    forall m | Models(m, UsedFormula(mem, trail))
      ensures Extends(m, Lits(trail)) && forall r :: r in mem && Used(mem[r]) ==> Holds(m, Lits(mem[r].lits))
    {
      UsedFormulaMeans(m, mem, trail);
    }
  }

  lemma KeepsTransitive(f: Formula, g: Formula, h: Formula, s: set<int>)
    requires KeepsSatisfiable(f, g) && (forall m :: Models(m, g) ==> Models(m, h))
    requires Satisfiable(h) <==> Satisfiable(h + {s})
    ensures KeepsSatisfiable(f, h + {s})
  {
  }

  /** With two deleted binary clauses in memory and nothing else, the clause -1 is accepted although no
      literal of it is falsified, and what is propagated becomes unsatisfiable. */
  lemma DeletedBinariesAreIgnored(mem: Memory, trail: seq<int>, c: Clause)
    requires trail == [] && c == [-1] && mem.Keys == {0, 1}
    requires mem[0].size == mem[1].size == 0 && mem[0].lits == [1, 2] && mem[1].lits == [1, -2]
    ensures Survives(mem, trail, c, -1) && 1 !in trail && !Trusted(mem, trail, c, -1)
    ensures Satisfiable(UsedFormula(mem, trail)) && !Satisfiable(UsedFormula(mem, trail) + {Lits(c)})
  {
    var f := UsedFormula(mem, trail);
    assert mem[0].lits[0] == 1 && mem[1].lits[0] == 1;
    assert Lits(mem[0].lits) == {1, 2} && Lits(mem[1].lits) == {1, -2};
    UsedFormulaMeans({1}, mem, trail);
    assert True({1}, 1);
    assert Models({1}, f);
    forall m | Models(m, f + {Lits(c)}) ensures false {
      ModelsUnion(m, f, {Lits(c)});
      UsedFormulaMeans(m, mem, trail);
      BothBinaries(m, mem, c);
    }
  }

  lemma BothBinaries(m: Assignment, mem: Memory, c: Clause)
    requires 0 in mem && 1 in mem && c == [-1]
    requires Lits(mem[0].lits) == {1, 2} && Lits(mem[1].lits) == {1, -2}
    ensures !(Holds(m, Lits(c)) && Holds(m, Lits(mem[0].lits)) && Holds(m, Lits(mem[1].lits)))
  {
    assert Lits(c) == {-1};
  }

  lemma UsedFormulaSame(mem: Memory, mem': Memory, trail: seq<int>)
    requires SameClauses(mem, mem')
    ensures UsedFormula(mem, trail) == UsedFormula(mem', trail)
  {
    hide SatisfiedBy;
    forall r | r in mem
      ensures r in mem' && mem[r].size == mem'[r].size && |mem[r].lits| == |mem'[r].lits|
      ensures Lits(mem[r].lits) == Lits(mem'[r].lits)
      ensures SatisfiedBy(mem[r].lits, trail) == SatisfiedBy(mem'[r].lits, trail)
    {
      SameMultisetSameLits(mem[r].lits, mem'[r].lits);
      SatisfiedSame(mem[r].lits, mem'[r].lits, trail);
    }
    UsedFormulaWithin(mem, mem', trail);
    UsedFormulaWithin(mem', mem, trail);
  }

  lemma UsedFormulaWithin(mem: Memory, mem': Memory, trail: seq<int>)
    requires forall r :: r in mem ==>
               && r in mem' && mem[r].size == mem'[r].size && |mem[r].lits| == |mem'[r].lits|
               && Lits(mem[r].lits) == Lits(mem'[r].lits)
               && SatisfiedBy(mem[r].lits, trail) == SatisfiedBy(mem'[r].lits, trail)
    ensures UsedFormula(mem, trail) <= UsedFormula(mem', trail)
  {
    hide SatisfiedBy;
  }

  lemma SatisfiedSame(c: Clause, d: Clause, trail: seq<int>)
    requires forall x :: x in c <==> x in d
    ensures SatisfiedBy(c, trail) == SatisfiedBy(d, trail)
  {
  }

  lemma SurvivesSame(mem: Memory, mem': Memory, trail: seq<int>, c: Clause)
    requires SameClauses(mem, mem')
    ensures forall l :: Survives(mem, trail, c, l) == Survives(mem', trail, c, l)
    ensures forall l :: Trusted(mem, trail, c, l) == Trusted(mem', trail, c, l)
  {
    forall r | r in mem
      ensures |mem[r].lits| == |mem'[r].lits| && forall x :: x in mem[r].lits <==> x in mem'[r].lits
      ensures SatisfiedBy(mem[r].lits, trail) == SatisfiedBy(mem'[r].lits, trail)
    {
      SameMultisetSameLits(mem[r].lits, mem'[r].lits);
      assert forall x :: x in mem[r].lits <==> x in Lits(mem[r].lits);
      assert forall x :: x in mem'[r].lits <==> x in Lits(mem'[r].lits);
    }
  }
}
