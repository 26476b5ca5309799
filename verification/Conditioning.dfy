/** Globally blocked clauses: shrinking an assignment to the largest conditional autarky. */
module Conditioning {
  import opened Cnf
  import opened Lists
  import opened Extension
  import opened Reconstruction
  import opened InternalSolver

  // ---------------------------------------------------------------- specification

  type Watches = map<int, seq<int>>

  function WatchesOf(occs: Watches, lit: int): seq<int> {
    if lit in occs then occs[lit] else []
  }

  /** Some literal of the clause is false. */
  ghost predicate Touched(c: Clause, vals: set<int>) {
    exists x :: x in c && -x in vals
  }

  /** The assignment is split by one bit per variable. */
  predicate IsAutarky(vals: set<int>, bits: set<int>, lit: int) {
    lit in vals && Abs(lit) !in bits
  }

  predicate IsConditional(vals: set<int>, bits: set<int>, lit: int) {
    lit in vals && Abs(lit) in bits
  }

  ghost predicate NegativeAutarky(c: Clause, vals: set<int>, bits: set<int>) {
    exists x :: x in c && IsAutarky(vals, bits, -x)
  }

  /** A part of the assignment that globally blocks a clause with respect to the given ones:
      an autarky under the condition that the other literals of the clause are false. */
  ghost predicate Solution(cs: seq<ClauseRecord>, base: set<int>, initial: set<int>, c: Clause,
                           autarky: set<int>, conditional: set<int>) {
    && autarky + conditional <= initial && autarky !! conditional
    && (forall k :: k in conditional ==> -k in c)
    && HasTrue(c, autarky)
    && forall i :: i in base && 0 <= i < |cs| && Touched(cs[i].lits, autarky) ==>
          HasTrue(cs[i].lits, autarky + conditional)
  }

  ghost predicate Solvable(cs: seq<ClauseRecord>, base: set<int>, initial: set<int>, c: Clause) {
    exists autarky, conditional :: Solution(cs, base, initial, c, autarky, conditional)
  }

  /** No solution uses more than what is left of the assignment, nor conditional literals in
      its autarky part. */
  ghost predicate Bounds(cs: seq<ClauseRecord>, base: set<int>, initial: set<int>, c: Clause, vals: set<int>,
                         bits: set<int>) {
    forall autarky, conditional :: Solution(cs, base, initial, c, autarky, conditional) ==>
      autarky + conditional <= vals && forall a :: a in autarky ==> Abs(a) !in bits
  }

  // ---------------------------------------------------------------- watches

  ghost predicate Watched(cs: seq<ClauseRecord>, occs: Watches, vals: set<int>, i: int) {
    0 <= i < |cs| && exists w :: w in vals && w in cs[i].lits && i in WatchesOf(occs, w)
  }

  /** Watch lists contain clauses of the base only; those with true and false literals are
      watched by a literal that is initially true, those with false literals only have
      conditional ones. */
  ghost predicate WatchesOk(cs: seq<ClauseRecord>, occs: Watches, base: set<int>, initial: set<int>) {
    && (forall w, i :: i in WatchesOf(occs, w) ==> i in base)
    && (forall i :: i in base ==> 0 <= i < |cs|)
    && forall i :: i in base && Touched(cs[i].lits, initial) && HasTrue(cs[i].lits, initial) ==>
          Watched(cs, occs, initial, i)
  }

  /** Each clause has a true watch, waits in the list, or has no negative autarky literal. */
  ghost predicate Refined(cs: seq<ClauseRecord>, occs: Watches, base: set<int>, vals: set<int>, bits: set<int>,
                          waiting: seq<int>) {
    forall i :: i in base && 0 <= i < |cs| ==>
      i in waiting || Watched(cs, occs, vals, i) || !NegativeAutarky(cs[i].lits, vals, bits)
  }

  function Moved(occs: Watches, u: int, j: nat, r: int, d: int): Watches
    requires j < |WatchesOf(occs, u)| && r != u
  {
    occs[u := WatchesOf(occs, u)[..j] + WatchesOf(occs, u)[j + 1..]][r := WatchesOf(occs, r) + [d]]
  }

  lemma DroppedMembers(os: seq<int>, j: nat, i: int)
    requires j < |os| && i in os && i != os[j]
    ensures i in os[..j] + os[j + 1..]
  {
    var k :| 0 <= k < |os| && os[k] == i;
    assert (os[..j] + os[j + 1..])[if k < j then k else k - 1] == i;
  }

  lemma MovedWatched(cs: seq<ClauseRecord>, occs: Watches, vals: set<int>, u: int, j: nat, r: int, d: int, i: int)
    requires j < |WatchesOf(occs, u)| && WatchesOf(occs, u)[j] == d && r != u && 0 <= d < |cs|
    requires r in cs[d].lits && r in vals
    ensures Watched(cs, occs, vals, i) ==> Watched(cs, Moved(occs, u, j, r, d), vals, i)
    ensures Watched(cs, Moved(occs, u, j, r, d), vals, d)
  {
    var occs' := Moved(occs, u, j, r, d);
    assert d in WatchesOf(occs', r);
    if Watched(cs, occs, vals, i) {
      var w :| w in vals && w in cs[i].lits && i in WatchesOf(occs, w);
      if w == u && i != d {
        DroppedMembers(WatchesOf(occs, u), j, i);
      }
      assert i == d || i in WatchesOf(occs', w);
    }
  }

  lemma MovedMembers(occs: Watches, u: int, j: nat, r: int, d: int, base: set<int>)
    requires j < |WatchesOf(occs, u)| && WatchesOf(occs, u)[j] == d && r != u
    requires forall w, i :: i in WatchesOf(occs, w) ==> i in base
    ensures forall w, i :: i in WatchesOf(Moved(occs, u, j, r, d), w) ==> i in base
  {
    var os := WatchesOf(occs, u);
    assert d in os;
    forall w, i | i in WatchesOf(Moved(occs, u, j, r, d), w) ensures i in base {
      if w == u {
        assert i in os;
      } else if w == r {
        assert i in WatchesOf(occs, r) || i == d;
      } else {
        assert i in WatchesOf(occs, w);
      }
    }
  }

  lemma MovedOk(cs: seq<ClauseRecord>, occs: Watches, base: set<int>, initial: set<int>, u: int, j: nat, r: int)
    requires WatchesOk(cs, occs, base, initial) && j < |WatchesOf(occs, u)| && r != u
    requires var d := WatchesOf(occs, u)[j]; 0 <= d < |cs| && r in cs[d].lits && r in initial
    ensures WatchesOk(cs, Moved(occs, u, j, r, WatchesOf(occs, u)[j]), base, initial)
  {
    hide Moved, Touched, HasTrue, Watched;
    var d := WatchesOf(occs, u)[j];
    MovedMembers(occs, u, j, r, d, base);
    forall i | Watched(cs, occs, initial, i) ensures Watched(cs, Moved(occs, u, j, r, d), initial, i) {
      MovedWatched(cs, occs, initial, u, j, r, d, i);
    }
  }

  lemma MovedRefined(cs: seq<ClauseRecord>, occs: Watches, base: set<int>, vals: set<int>, bits: set<int>, u: int,
                     j: nat, r: int)
    requires j < |WatchesOf(occs, u)| && r != u && u !in vals
    requires Refined(cs, occs, base, vals, bits, WatchesOf(occs, u)[j..])
    requires var d := WatchesOf(occs, u)[j]; 0 <= d < |cs| && r in cs[d].lits && r in vals
    ensures var occs' := Moved(occs, u, j, r, WatchesOf(occs, u)[j]);
            |WatchesOf(occs', u)| == |WatchesOf(occs, u)| - 1
            && Refined(cs, occs', base, vals, bits, WatchesOf(occs', u)[j..])
  {
    hide Watched, NegativeAutarky;
    var d := WatchesOf(occs, u)[j];
    var occs' := Moved(occs, u, j, r, d);
    assert WatchesOf(occs', u) == WatchesOf(occs, u)[..j] + WatchesOf(occs, u)[j + 1..];
    assert WatchesOf(occs', u)[j..] == WatchesOf(occs, u)[j + 1..];
    assert WatchesOf(occs, u)[j..] == [d] + WatchesOf(occs, u)[j + 1..];
    forall i ensures Watched(cs, occs, vals, i) ==> Watched(cs, occs', vals, i) {
      MovedWatched(cs, occs, vals, u, j, r, d, i);
    }
    MovedWatched(cs, occs, vals, u, j, r, d, d);
  }

  // ---------------------------------------------------------------- shrinking

  lemma UnassignBounds(cs: seq<ClauseRecord>, base: set<int>, initial: set<int>, c: Clause, vals: set<int>,
                       bits: set<int>, k: int)
    requires Bounds(cs, base, initial, c, vals, bits) && Abs(k) in bits && -k !in c
    ensures Bounds(cs, base, initial, c, vals - {k}, bits)
  {
    forall autarky, conditional | Solution(cs, base, initial, c, autarky, conditional)
      ensures autarky + conditional <= vals - {k} && forall a :: a in autarky ==> Abs(a) !in bits
    {
      assert autarky + conditional <= vals;
      assert k !in autarky && k !in conditional;
    }
  }

  lemma UnassignRefined(cs: seq<ClauseRecord>, occs: Watches, base: set<int>, vals: set<int>, bits: set<int>, k: int)
    requires Refined(cs, occs, base, vals, bits, [])
    ensures Refined(cs, occs, base, vals - {k}, bits, WatchesOf(occs, k))
  {
    forall i | i in base && 0 <= i < |cs|
      ensures i in WatchesOf(occs, k) || Watched(cs, occs, vals - {k}, i) || !NegativeAutarky(cs[i].lits, vals - {k},
                bits)
    {
      if Watched(cs, occs, vals, i) {
        var w :| w in vals && w in cs[i].lits && i in WatchesOf(occs, w);
        assert w == k || w in vals - {k};
      }
    }
  }

  lemma TrueInLarger(c: Clause, a: set<int>, b: set<int>)
    requires a <= b
    ensures HasTrue(c, a) ==> HasTrue(c, b)
  {
  }

  lemma MarkBounds(cs: seq<ClauseRecord>, base: set<int>, initial: set<int>, c: Clause, vals: set<int>, bits: set<int>,
                   d: int, a: int)
    requires Bounds(cs, base, initial, c, vals, bits) && Consistent(initial) && vals <= initial
    requires d in base && 0 <= d < |cs| && !HasTrue(cs[d].lits, vals) && -a in cs[d].lits && a in vals
    ensures Bounds(cs, base, initial, c, vals, bits + {Abs(a)})
  {
    forall autarky, conditional | Solution(cs, base, initial, c, autarky, conditional)
      ensures autarky + conditional <= vals && forall b :: b in autarky ==> Abs(b) !in bits + {Abs(a)}
    {
      assert autarky + conditional <= vals;
      assert a in autarky ==> Touched(cs[d].lits, autarky);
      TrueInLarger(cs[d].lits, autarky + conditional, vals);
      forall b | b in autarky ensures Abs(b) != Abs(a) {
        assert b in autarky + conditional;
      }
    }
  }

  lemma MoreBitsRefined(cs: seq<ClauseRecord>, occs: Watches, base: set<int>, vals: set<int>, bits: set<int>,
                        bits': set<int>, waiting: seq<int>)
    requires Refined(cs, occs, base, vals, bits, waiting) && bits <= bits'
    ensures Refined(cs, occs, base, vals, bits', waiting)
  {
    hide Watched;
    forall i | i in base && 0 <= i < |cs| && NegativeAutarky(cs[i].lits, vals, bits')
      ensures NegativeAutarky(cs[i].lits, vals, bits)
    {
      var x :| x in cs[i].lits && IsAutarky(vals, bits', -x);
      assert IsAutarky(vals, bits, -x);
    }
  }

  lemma KeptRefined(cs: seq<ClauseRecord>, occs: Watches, base: set<int>, vals: set<int>, bits: set<int>, os: seq<int>,
                    j: nat)
    requires j < |os| && Refined(cs, occs, base, vals, bits, os[j..])
    requires 0 <= os[j] < |cs| && !NegativeAutarky(cs[os[j]].lits, vals, bits)
    ensures Refined(cs, occs, base, vals, bits, os[j + 1..])
  {
    hide Watched, NegativeAutarky;
    assert os[j..] == [os[j]] + os[j + 1..];
  }

  // ---------------------------------------------------------------- the result

  /** At the fix-point what is left is a solution. */
  lemma FixpointIsSolution(cs: seq<ClauseRecord>, occs: Watches, base: set<int>, initial: set<int>, c: Clause,
                           vals: set<int>, bits: set<int>, w: int)
    requires Refined(cs, occs, base, vals, bits, []) && vals <= initial
    requires w in c && IsAutarky(vals, bits, w)
    requires forall k :: IsConditional(vals, bits, k) ==> -k in c
    ensures Solution(cs, base, initial, c, set a | a in vals && IsAutarky(vals, bits, a),
                     set k | k in vals && IsConditional(vals, bits, k))
  {
    var autarky := set a | a in vals && IsAutarky(vals, bits, a);
    var conditional := set k | k in vals && IsConditional(vals, bits, k);
    forall i | i in base && 0 <= i < |cs| && Touched(cs[i].lits, autarky)
      ensures HasTrue(cs[i].lits, autarky + conditional)
    {
      var x :| x in cs[i].lits && -x in autarky;
      assert NegativeAutarky(cs[i].lits, vals, bits);
      var y :| y in vals && y in cs[i].lits && i in WatchesOf(occs, y);
      assert y in autarky + conditional;
    }
    assert w in autarky;
  }

  lemma NoAutarkyLeft(cs: seq<ClauseRecord>, base: set<int>, initial: set<int>, c: Clause, vals: set<int>,
                      bits: set<int>)
    requires Bounds(cs, base, initial, c, vals, bits)
    requires forall x :: x in c ==> !IsAutarky(vals, bits, x)
    ensures !Solvable(cs, base, initial, c)
  {
    forall autarky, conditional ensures !Solution(cs, base, initial, c, autarky, conditional) {
      assert Solution(cs, base, initial, c, autarky, conditional) ==>
        autarky + conditional <= vals && forall a :: a in autarky ==> Abs(a) !in bits;
      assert forall a :: a in autarky ==> a in autarky + conditional;
      assert !(HasTrue(c, autarky) && forall a :: a in autarky ==> IsAutarky(vals, bits, a));
    }
  }

  /** A solution with respect to all live clauses globally blocks the clause. */
  lemma SolutionBlocks(cs: seq<ClauseRecord>, base: set<int>, initial: set<int>, fixedLits: set<int>, c: nat,
                       autarky: set<int>, conditional: set<int>, cube: seq<int>)
    requires c < |cs| && Solution(cs, base, initial, cs[c].lits, autarky, conditional) && Consistent(initial)
    requires forall i :: 0 <= i < |cs| && cs[i].Live() ==> i in base
    requires forall x :: x in initial ==> x !in fixedLits && -x !in fixedLits
    requires Lits(cube) == autarky
    ensures var ds := cs[c := cs[c].(garbage := true)];
            GloballyBlocked(FormulaOf(ds, fixedLits), Lits(cs[c].lits), cube, conditional)
  {
    var ds := cs[c := cs[c].(garbage := true)];
    var f := FormulaOf(ds, fixedLits);
    assert forall a :: a in cube <==> a in Lits(cube);
    forall a | a in cube ensures -a !in cube && -a !in conditional && a != 0 {
      assert a in autarky + conditional;
      assert -a in conditional ==> -a in autarky + conditional;
      assert -a in cube ==> -a in autarky + conditional;
    }
    forall d, a | d in f && a in cube && -a in d ensures exists x :: x in d && (x in cube || x in conditional) {
      assert a in autarky + conditional;
      assert forall u :: u in fixedLits && d == {u} ==> u != -a;
      var i :| 0 <= i < |ds| && ds[i].Live() && d == Lits(ds[i].lits);
      assert cs[i].Live() && i in base;
      assert Touched(cs[i].lits, autarky);
      var x :| x in cs[i].lits && x in autarky + conditional;
      assert x in d;
    }
    var x :| x in cs[c].lits && x in autarky;
    assert x in Lits(cs[c].lits) && x in cube;
  }

  /** Removing a globally blocked clause keeps what the solver promises. */
  lemma ConditionKeeps(original: Formula, cs: seq<ClauseRecord>, base: set<int>, initial: set<int>, fixedLits: set<int>,
                       c: nat,
                       autarky: set<int>, conditional: set<int>, cube: seq<int>, stack: seq<Entry>, maxVar: nat)
    requires Reconstructs(original, State(FormulaOf(cs, fixedLits), stack))
    requires c < |cs| && Solution(cs, base, initial, cs[c].lits, autarky, conditional) && Consistent(initial)
    requires forall i :: 0 <= i < |cs| && cs[i].Live() ==> i in base
    requires forall x :: x in initial ==> x !in fixedLits && -x !in fixedLits
    requires Lits(cube) == autarky
    requires (forall i :: 0 <= i < |cs| ==> GoodRecord(cs[i], maxVar)) && 0 !in fixedLits
    ensures Reconstructs(original, State(FormulaOf(cs[c := cs[c].(garbage := true)], fixedLits),
                                         stack + [Entry(cube, cs[c].id, cs[c].lits)]))
  {
    hide FormulaOf, Reconstructs, GloballyBlocked, NonZeroFormula, Solution;
    var ds := cs[c := cs[c].(garbage := true)];
    var f, g := FormulaOf(cs, fixedLits), FormulaOf(ds, fixedLits);
    SolutionBlocks(cs, base, initial, fixedLits, c, autarky, conditional, cube);
    GarbageFormula(cs, fixedLits, c);
    GoodFormulaIsNonZero(cs, fixedLits, maxVar);
    assert forall i :: 0 <= i < |ds| ==> GoodRecord(ds[i], maxVar);
    GoodFormulaIsNonZero(ds, fixedLits, maxVar);
    var t := Condition(cs[c].lits, cube, conditional, cs[c].id);
    NextKeeps(t, original, State(f, stack), State(g, stack + Pushed(t)));
  }

  // ---------------------------------------------------------------- the state of a round

  /** Literals are assigned or temporarily unassigned; the conditional bits are those of the
      conditional stack, which contains all unassigned literals. */
  ghost predicate Split(initial: set<int>, vals: set<int>, bits: set<int>, conditional: seq<int>,
                        unassigned: seq<int>) {
    && Consistent(initial) && vals !! Lits(unassigned) && vals + Lits(unassigned) == initial
    && NoDuplicates(unassigned) && NoDuplicates(conditional)
    && Lits(unassigned) <= Lits(conditional) <= initial
    && bits == set x | x in conditional :: Abs(x)
  }

  lemma SplitMeans(initial: set<int>, vals: set<int>, bits: set<int>, conditional: seq<int>, unassigned: seq<int>,
                   l: int)
    requires Split(initial, vals, bits, conditional, unassigned) && l in vals
    ensures IsConditional(vals, bits, l) <==> l in conditional
    ensures vals <= initial && l in initial && l != 0 && -l !in initial
  {
    if l in conditional {
      assert Abs(l) in bits;
    }
    if Abs(l) in bits {
      var x :| x in conditional && Abs(x) == Abs(l);
      assert x in Lits(conditional) && x in initial && l in initial;
    }
  }

  lemma SplitMark(initial: set<int>, vals: set<int>, bits: set<int>, conditional: seq<int>, unassigned: seq<int>,
                  l: int)
    requires Split(initial, vals, bits, conditional, unassigned) && IsAutarky(vals, bits, l)
    ensures Split(initial, vals, bits + {Abs(l)}, conditional + [l], unassigned)
  {
    SplitMeans(initial, vals, bits, conditional, unassigned, l);
    assert Lits(conditional + [l]) == Lits(conditional) + {l};
    assert l in conditional + [l];
    forall b ensures b in (set x | x in conditional + [l] :: Abs(x)) <==> b in bits + {Abs(l)} {
      if b in bits {
        var x :| x in conditional && Abs(x) == b;
        assert x in conditional + [l];
      }
    }
  }

  lemma SplitUnassign(initial: set<int>, vals: set<int>, bits: set<int>, conditional: seq<int>, unassigned: seq<int>,
                      l: int)
    requires Split(initial, vals, bits, conditional, unassigned) && l in vals && l in conditional
    ensures Split(initial, vals - {l}, bits, conditional, unassigned + [l])
  {
    assert l !in unassigned by { assert l !in Lits(unassigned); }
    assert Lits(unassigned + [l]) == Lits(unassigned) + {l};
    assert l in Lits(conditional);
  }

  lemma SplitReassign(initial: set<int>, vals: set<int>, bits: set<int>, conditional: seq<int>, unassigned: seq<int>)
    requires Split(initial, vals, bits, conditional, unassigned) && unassigned != []
    ensures unassigned[|unassigned| - 1] !in vals
    ensures Split(initial, vals + {unassigned[|unassigned| - 1]}, bits, conditional, unassigned[..|unassigned| - 1])
  {
    var n := |unassigned| - 1;
    var rest := unassigned[..n];
    assert unassigned == rest + [unassigned[n]];
    assert Lits(unassigned) == Lits(rest) + {unassigned[n]};
    assert unassigned[n] !in rest && unassigned[n] in Lits(unassigned);
    assert unassigned[n] !in Lits(rest);
  }

  lemma SplitUnmark(initial: set<int>, vals: set<int>, bits: set<int>, conditional: seq<int>)
    requires Split(initial, vals, bits, conditional, []) && conditional != []
    ensures var n := |conditional| - 1;
            IsConditional(vals, bits, conditional[n])
            && Split(initial, vals, bits - {Abs(conditional[n])}, conditional[..n], [])
  {
    var n := |conditional| - 1;
    var l, rest := conditional[n], conditional[..n];
    assert conditional == rest + [l] && l in Lits(conditional);
    SplitMeans(initial, vals, bits, conditional, [], l);
    assert Lits(conditional) == Lits(rest) + {l};
    forall x | x in rest ensures Abs(x) != Abs(l) {
      assert x in Lits(conditional);
      assert x != l;
    }
    forall b ensures b in (set x | x in rest :: Abs(x)) <==> b in bits - {Abs(l)} {
      if b in bits - {Abs(l)} {
        var x :| x in conditional && Abs(x) == b;
        assert x in rest;
      }
    }
  }

  /** The conditional stack never outgrows the assignment. */
  lemma SplitSize(initial: set<int>, vals: set<int>, bits: set<int>, conditional: seq<int>, unassigned: seq<int>)
    requires Split(initial, vals, bits, conditional, unassigned)
    ensures |conditional| <= |initial| && (|conditional| == |initial| ==> Lits(conditional) == initial)
  {
    DistinctSize(conditional);
    SubsetSize(Lits(conditional), initial);
  }

  /** Each initial conditional literal is false in a clause without a true literal. */
  ghost predicate Justified(cs: seq<ClauseRecord>, base: set<int>, initial: set<int>, conditional: seq<int>) {
    forall a :: a in conditional ==>
      exists d :: d in base && 0 <= d < |cs| && -a in cs[d].lits && !HasTrue(cs[d].lits, initial)
  }

  /** Clauses without a true literal have only conditional false ones. */
  ghost predicate Closed(cs: seq<ClauseRecord>, base: set<int>, initial: set<int>, bits: set<int>) {
    forall d :: d in base && 0 <= d < |cs| && !HasTrue(cs[d].lits, initial) ==>
          !NegativeAutarky(cs[d].lits, initial, bits)
  }

  lemma InitialBounds(cs: seq<ClauseRecord>, base: set<int>, initial: set<int>, c: Clause, bits: set<int>,
                      conditional: seq<int>)
    requires Split(initial, initial, bits, conditional, []) && Justified(cs, base, initial, conditional)
    ensures Bounds(cs, base, initial, c, initial, bits)
  {
    forall autarky, k | Solution(cs, base, initial, c, autarky, k)
      ensures autarky + k <= initial && forall a :: a in autarky ==> Abs(a) !in bits
    {
      forall a | a in autarky ensures a !in conditional {
        assert a in conditional ==>
                 exists d :: d in base && 0 <= d < |cs| && -a in cs[d].lits && !HasTrue(cs[d].lits, initial);
        forall d | d in base && 0 <= d < |cs| && -a in cs[d].lits ensures HasTrue(cs[d].lits, initial) {
          assert Touched(cs[d].lits, autarky);
          TrueInLarger(cs[d].lits, autarky + k, initial);
        }
      }
      forall a | a in autarky ensures Abs(a) !in bits {
        assert a in autarky + k;
        SplitMeans(initial, initial, bits, conditional, [], a);
      }
    }
  }

  lemma InitialRefined(cs: seq<ClauseRecord>, occs: Watches, base: set<int>, initial: set<int>, bits: set<int>)
    requires WatchesOk(cs, occs, base, initial) && Closed(cs, base, initial, bits)
    ensures Refined(cs, occs, base, initial, bits, [])
  {
    hide Watched;
    forall i | i in base && 0 <= i < |cs| && NegativeAutarky(cs[i].lits, initial, bits)
      ensures Watched(cs, occs, initial, i)
    {
      var x :| x in cs[i].lits && IsAutarky(initial, bits, -x);
      assert Touched(cs[i].lits, initial) && HasTrue(cs[i].lits, initial);
    }
  }

  // ---------------------------------------------------------------- only literals matter

  ghost predicate SameLits(cs: seq<ClauseRecord>, ds: seq<ClauseRecord>) {
    |cs| == |ds| && forall i :: 0 <= i < |cs| ==> cs[i].lits == ds[i].lits
  }

  lemma SameLitsKeeps(cs: seq<ClauseRecord>, ds: seq<ClauseRecord>, occs: Watches, base: set<int>, initial: set<int>,
                      conditional: seq<int>, bits: set<int>)
    requires SameLits(cs, ds)
    ensures WatchesOk(cs, occs, base, initial) ==> WatchesOk(ds, occs, base, initial)
    ensures Justified(cs, base, initial, conditional) ==> Justified(ds, base, initial, conditional)
    ensures Closed(cs, base, initial, bits) ==> Closed(ds, base, initial, bits)
  {
    hide HasTrue, Touched, NegativeAutarky;
    forall i | Watched(cs, occs, initial, i) ensures Watched(ds, occs, initial, i) { }
    forall i | Watched(ds, occs, initial, i) ensures Watched(cs, occs, initial, i) { }
    if Justified(cs, base, initial, conditional) {
      forall a | a in conditional
        ensures exists d :: d in base && 0 <= d < |ds| && -a in ds[d].lits && !HasTrue(ds[d].lits, initial)
      {
        var d :| d in base && 0 <= d < |cs| && -a in cs[d].lits && !HasTrue(cs[d].lits, initial);
        assert -a in ds[d].lits;
      }
    }
  }

  lemma SameLitsSolution(cs: seq<ClauseRecord>, ds: seq<ClauseRecord>, base: set<int>, initial: set<int>, c: Clause,
                         autarky: set<int>, conditional: set<int>)
    requires SameLits(cs, ds) && Solution(cs, base, initial, c, autarky, conditional)
    ensures Solution(ds, base, initial, c, autarky, conditional)
  {
    hide HasTrue, Touched;
  }

  lemma SameLitsSolvable(cs: seq<ClauseRecord>, ds: seq<ClauseRecord>, base: set<int>, initial: set<int>, c: Clause)
    requires SameLits(cs, ds)
    ensures Solvable(cs, base, initial, c) == Solvable(ds, base, initial, c)
  {
    hide Solution;
    forall a, k | Solution(cs, base, initial, c, a, k) ensures Solvable(ds, base, initial, c) {
      SameLitsSolution(cs, ds, base, initial, c, a, k);
    }
    forall a, k | Solution(ds, base, initial, c, a, k) ensures Solvable(cs, base, initial, c) {
      SameLitsSolution(ds, cs, base, initial, c, a, k);
    }
  }

  /** The set of autarky literals, computed along the trail. */
  lemma TrailAutarky(trail: seq<int>, vals: set<int>, bits: set<int>)
    requires vals <= Lits(trail)
    ensures (set a | a in trail && IsAutarky(vals, bits, a)) == (set a | a in vals && IsAutarky(vals, bits, a))
  {
    forall a | a in vals ensures a in trail {
      assert a in Lits(trail);
    }
  }

  lemma NoAutarkyAtAll(cs: seq<ClauseRecord>, base: set<int>, initial: set<int>, bits: set<int>, conditional: seq<int>,
                       c: Clause)
    requires Split(initial, initial, bits, conditional, []) && Justified(cs, base, initial, conditional)
    requires |conditional| == |initial|
    ensures !Solvable(cs, base, initial, c)
  {
    InitialBounds(cs, base, initial, c, bits, conditional);
    SplitSize(initial, initial, bits, conditional, []);
    forall x | x in c ensures !IsAutarky(initial, bits, x) {
      assert x in initial ==> x in Lits(conditional);
      if x in initial {
        SplitMeans(initial, initial, bits, conditional, [], x);
      }
    }
    NoAutarkyLeft(cs, base, initial, c, initial, bits);
  }

  // ---------------------------------------------------------------- progress of a round

  /** Among the clauses that were looked at exactly the solvable ones of those dealt with have been removed,
      reasons excepted. */
  ghost predicate Progress(cs: seq<ClauseRecord>, base: set<int>, initial: set<int>, done: seq<int>,
                           reasons: set<int>) {
    && (forall i :: i in base && 0 <= i < |cs| && cs[i].garbage ==> i in done && i !in reasons)
    && forall i :: i in done && i !in reasons && 0 <= i < |cs| ==>
          cs[i].garbage == Solvable(cs, base, initial, cs[i].lits)
  }

  lemma ProgressStart(cs: seq<ClauseRecord>, base: set<int>, initial: set<int>, reasons: set<int>)
    requires forall i :: i in base && 0 <= i < |cs| ==> !cs[i].garbage
    ensures Progress(cs, base, initial, [], reasons)
  {
  }

  lemma ProgressSkip(cs: seq<ClauseRecord>, base: set<int>, initial: set<int>, candidates: seq<int>, k: nat,
                     reasons: set<int>)
    requires k < |candidates| && candidates[k] in reasons
    requires Progress(cs, base, initial, candidates[..k], reasons)
    ensures Progress(cs, base, initial, candidates[..k + 1], reasons)
  {
    hide Solvable;
    assert candidates[..k + 1] == candidates[..k] + [candidates[k]];
  }

  lemma ProgressStep(cs: seq<ClauseRecord>, ds: seq<ClauseRecord>, base: set<int>, initial: set<int>,
                     candidates: seq<int>, k: nat, reasons: set<int>, blocked: bool)
    requires k < |candidates| && Progress(cs, base, initial, candidates[..k], reasons)
    requires var c := candidates[k];
             && 0 <= c < |cs| && !cs[c].garbage && c in base && c !in reasons
             && ds == (if blocked then cs[c := cs[c].(garbage := true)] else cs)
             && blocked == Solvable(cs, base, initial, cs[c].lits)
    ensures Progress(ds, base, initial, candidates[..k + 1], reasons) && SameLits(cs, ds)
  {
    hide Solvable;
    var c := candidates[k];
    assert candidates[..k + 1] == candidates[..k] + [c];
    forall i | 0 <= i < |cs|
      ensures Solvable(ds, base, initial, ds[i].lits) == Solvable(cs, base, initial, cs[i].lits)
    {
      SameLitsSolvable(cs, ds, base, initial, cs[i].lits);
    }
  }

  /** Without autarky literals nothing is solvable. */
  lemma ProgressEnd(cs: seq<ClauseRecord>, base: set<int>, initial: set<int>, candidates: seq<int>, k: nat,
                    reasons: set<int>, bits: set<int>, conditional: seq<int>)
    requires k <= |candidates| && Progress(cs, base, initial, candidates[..k], reasons) && |conditional| >= |initial|
    requires NoDuplicates(candidates) && forall i :: i in candidates ==> i in base
    requires Split(initial, initial, bits, conditional, []) && Justified(cs, base, initial, conditional)
    ensures Progress(cs, base, initial, candidates, reasons)
  {
    hide Solvable, Split, Justified;
    assert forall i :: i in candidates[..k] ==> i in candidates;
    SplitSize(initial, initial, bits, conditional, []);
    forall i | 0 <= i < |cs| ensures !Solvable(cs, base, initial, cs[i].lits) {
      NoAutarkyAtAll(cs, base, initial, bits, conditional, cs[i].lits);
    }
  }

  // ---------------------------------------------------------------- what is decided

  ghost function BaseFormula(cs: seq<ClauseRecord>, base: set<int>): Formula {
    set i | i in base && 0 <= i < |cs| :: Lits(cs[i].lits)
  }

  lemma {:induction false} ListOfSet(s: set<int>) returns (l: seq<int>)
    ensures Lits(l) == s
  {
    l := [];
    if x :| x in s {
      var r := ListOfSet(s - {x});
      l := r + [x];
      assert Lits(l) == Lits(r) + {x} == s;
    }
    assert forall y :: y in Lits(l) <==> y in s;
  }

  /** The clauses that are removed are those that a part of the assignment globally blocks. */
  lemma SolvableIffBlocked(cs: seq<ClauseRecord>, base: set<int>, initial: set<int>, c: Clause)
    requires Consistent(initial)
    ensures Solvable(cs, base, initial, c) <==>
            exists cube: seq<int>, conditional: set<int> ::
              && Lits(cube) + conditional <= initial
              && GloballyBlocked(BaseFormula(cs, base), Lits(c), cube, conditional)
  {
    hide HasTrue, Touched, GloballyBlocked, Solution;
    if Solvable(cs, base, initial, c) {
      var autarky, conditional :| Solution(cs, base, initial, c, autarky, conditional);
      var cube := ListOfSet(autarky);
      SolutionIsBlocking(cs, base, initial, c, autarky, conditional, cube);
    }
    if cube: seq<int>, conditional: set<int> :|
      Lits(cube) + conditional <= initial && GloballyBlocked(BaseFormula(cs, base), Lits(c), cube, conditional)
    {
      BlockingIsSolution(cs, base, initial, c, cube, conditional);
    }
  }

  lemma TrueIn(c: Clause, vals: set<int>) returns (x: int)
    requires HasTrue(c, vals)
    ensures x in c && x in vals
  {
    x :| x in c && x in vals;
  }

  lemma SolutionIsBlocking(cs: seq<ClauseRecord>, base: set<int>, initial: set<int>, c: Clause, autarky: set<int>,
                           conditional: set<int>, cube: seq<int>)
    requires Consistent(initial) && Solution(cs, base, initial, c, autarky, conditional) && Lits(cube) == autarky
    ensures Lits(cube) + conditional <= initial
    ensures GloballyBlocked(BaseFormula(cs, base), Lits(c), cube, conditional)
  {
    assert forall a :: a in cube <==> a in autarky;
    assert forall a :: a in autarky + conditional ==> a in initial;
    forall d, a | d in BaseFormula(cs, base) && a in cube && -a in d
      ensures exists x :: x in d && (x in cube || x in conditional)
    {
      var i :| i in base && 0 <= i < |cs| && d == Lits(cs[i].lits);
      assert Touched(cs[i].lits, autarky);
      var x :| x in cs[i].lits && x in autarky + conditional;
      assert x in d;
    }
    var y := TrueIn(c, autarky);
    assert y in cube && y in Lits(c);
  }

  /** Conditional literals that are in the autarky as well are not needed. */
  lemma BlockingIsSolution(cs: seq<ClauseRecord>, base: set<int>, initial: set<int>, c: Clause, cube: seq<int>,
                           conditional: set<int>)
    requires Consistent(initial) && Lits(cube) + conditional <= initial
    requires GloballyBlocked(BaseFormula(cs, base), Lits(c), cube, conditional)
    ensures Solvable(cs, base, initial, c)
  {
    var autarky, rest := Lits(cube), conditional - Lits(cube);
    forall i | i in base && 0 <= i < |cs| && Touched(cs[i].lits, autarky)
      ensures HasTrue(cs[i].lits, autarky + rest)
    {
      var y :| y in cs[i].lits && -y in autarky;
      var d := Lits(cs[i].lits);
      assert d in BaseFormula(cs, base) && -(-y) in d && -y in cube;
      var x :| x in d && (x in cube || x in conditional);
      assert x in cs[i].lits && x in autarky + rest;
    }
    var a :| a in cube && a in Lits(c);
    assert a in c && a in autarky;
    assert Solution(cs, base, initial, c, autarky, rest);
  }

  /** The next candidate has not been removed yet. */
  lemma CandidateIsLive(cs: seq<ClauseRecord>, base: set<int>, initial: set<int>, candidates: seq<int>, k: nat,
                        reasons: set<int>)
    requires k < |candidates| && NoDuplicates(candidates)
    requires Progress(cs, base, initial, candidates[..k], reasons)
    requires candidates[k] in base && 0 <= candidates[k] < |cs|
    ensures !cs[candidates[k]].garbage
  {
    hide Solvable;
    forall i | i in candidates[..k] ensures i != candidates[k] {
      var j :| 0 <= j < k && candidates[j] == i;
    }
  }
}
