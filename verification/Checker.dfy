/** The online proof checker: a propagation engine over the clauses of the proof. */
module DrupChecker {
  import opened Cnf
  import opened Lists
  import opened Propagation
  import opened HashTable
  import opened CheckerClauses
  import opened CheckerState
  import opened CheckerBlocked

  class Checker {
    var vals: map<int, int>
    var watchers: WatchLists
    var memory: Memory
    var trail: seq<int>
    var nextToPropagate: nat
    var sizeVars: nat
    var inconsistent: bool

    var buckets: Buckets
    var numClauses: nat
    var garbage: seq<int>
    var numGarbage: nat
    var nextRef: int
    const nonces: seq<nat>

    /** A formula from which everything the checker uses follows: all clauses that were added, or after a
        trusted clause what was in use then, and the original clauses. */
    ghost var history: Formula
    ghost var originals: Formula
    /** All derived clauses so far were accepted by propagation. */
    ghost var rup: bool
    /** All clauses accepted as blocked were trusted, and no original clause was added after the first one. */
    ghost var trusted: bool
    /** The clauses that were added and not deleted, and where they are stored. */
    ghost var added: map<nat, set<int>>
    ghost var refOf: map<nat, int>

    constructor (nonces: seq<nat>)
      requires |nonces| == 4
      ensures Valid() && !inconsistent && this.nonces == nonces
      ensures originals == {} && rup && trusted && added == map[] && trail == [] && memory == map[]
    {
      vals, watchers, memory, trail := map[], map[], map[], [];
      nextToPropagate, sizeVars, inconsistent := 0, 0, false;
      buckets, numClauses, garbage, numGarbage, nextRef := [], 0, [], 0, 0;
      this.nonces := nonces;
      history, originals, rup, trusted, added, refOf := {}, {}, true, true, map[], map[];
    }

    /** The invariant between two operations. */
    ghost predicate Valid()
      reads this
    {
      && |nonces| == 4 && (rup ==> trusted && FormulaImplied(originals, history))
      && (trusted ==> KeepsSatisfiable(originals, history))
      && (rup && !inconsistent ==> MemoryImplied(history, memory))
      && (inconsistent ==> Contradicts(history, {}))
      && (!inconsistent ==> AtRoot() && TableOk() && Registry(memory, trail, nonces, added, refOf))
    }

    ghost predicate TableOk()
      reads `memory, `buckets, `numClauses, `garbage, `numGarbage, `nextRef
    {
      StorageOk(memory, buckets, numClauses, garbage, numGarbage, nextRef)
    }

    function Val(lit: int): int
      reads this`vals
    {
      ValIn(vals, lit)
    }

    /** The invariant of the propagation engine; `base` are the assumed literals. */
    ghost predicate Core(base: set<int>)
      reads `vals, `watchers, `memory, `trail, `nextToPropagate, `sizeVars, `history
    {
      && WatchInvariant(memory, watchers) && GoodTrail(trail) && ValsMatch(vals, trail)
      && nextToPropagate <= |trail| && Bounded(memory, trail, sizeVars)
      && TrailImplied(history, base, trail) && UsedImplied(history, memory)
    }

    /** The first `p` literals of the trail stay completely propagated by themselves. */
    ghost predicate RootPropagated(p: nat)
      reads `vals, `watchers, `memory, `trail, `nextToPropagate, `sizeVars, `history
    {
      p <= |trail| && Propagated(memory, watchers, trail[..p], p)
    }

    method Assign(lit: int)
      requires Val(lit) == 0 && lit != 0 && GoodTrail(trail) && ValsMatch(vals, trail)
      modifies this`vals, this`trail
      ensures GoodTrail(trail) && ValsMatch(vals, trail) && trail == old(trail) + [lit]
    {
      AssignMatches(vals, trail, lit);
      vals := vals[lit := 1];
      vals := vals[-lit := -1];
      trail := trail + [lit];
    }

    /** Undoes all assignments beyond the given trail size. */
    method Backtrack(previouslyPropagated: nat)
      requires previouslyPropagated <= |trail| && GoodTrail(trail) && ValsMatch(vals, trail)
      modifies this`vals, this`trail, this`nextToPropagate
      ensures trail == old(trail)[..previouslyPropagated] && nextToPropagate == previouslyPropagated
      ensures GoodTrail(trail) && ValsMatch(vals, trail)
    {
      while |trail| > previouslyPropagated
        invariant previouslyPropagated <= |trail| <= |old(trail)| && trail == old(trail)[..|trail|]
        invariant GoodTrail(trail) && ValsMatch(vals, trail)
      {
        var n := |trail| - 1;
        var lit := trail[n];
        UnassignMatches(vals, trail);
        vals := vals[lit := 0][-lit := 0];
        trail := trail[..n];
      }
      nextToPropagate := previouslyPropagated;
    }

    // ------------------------------------------------------------ propagation

    /** In the middle of the list of `l`, the negation of the last literal taken from the
        trail; the first `j` watches have been dealt with. */
    ghost predicate Visiting(base: set<int>, l: int, j: nat, p: nat)
      reads `vals, `watchers, `memory, `trail, `nextToPropagate, `sizeVars, `history
    {
      && Core(base) && RootPropagated(p) && p < nextToPropagate && l == -trail[nextToPropagate - 1]
      && Propagated(memory, watchers, trail, nextToPropagate - 1)
      && j <= |ListOf(watchers, l)|
      && SettledList(memory, trail, l, ListOf(watchers, l)[..j])
    }

    /** The literal that the clause leaves over is assigned. */
    method AssignImplied(u: int, ghost c: Clause, ghost base: set<int>, ghost l: int, ghost j: nat, ghost p: nat)
      requires Visiting(base, l, j, p) && Val(u) == 0 && u != 0 && Abs(u) < sizeVars
      requires Implies(history, Lits(c)) && Distinct(c) && forall x :: x in c && x != u ==> -x in trail
      modifies this`vals, this`trail
      ensures Visiting(base, l, j, p) && trail == old(trail) + [u]
    {
      hide WatchInvariant, UsedImplied, TrailImplied, SettledList, Propagated, ListOf, Distinct, ValsMatch, Implies,
           Bounded;
      UnitIsImplied(history, base, trail, c, u);
      AssignKeepsSettled(memory, watchers, trail, u, nextToPropagate - 1);
      BoundedAssign(memory, trail, u, sizeVars);
      Assign(u);
      assert trail[..p] == old(trail)[..p];
    }

    /** A watch of a binary clause; the clause might be garbage, but it is implied anyway. */
    method VisitBinary(ghost base: set<int>, l: int, j: nat, ghost p: nat) returns (res: bool)
      requires Visiting(base, l, j, p) && j < |ListOf(watchers, l)|
      requires ListOf(watchers, l)[j].size == 2 && Val(ListOf(watchers, l)[j].blit) <= 0
      modifies this`vals, this`trail
      ensures old(trail) <= trail
      ensures res ==> Visiting(base, l, j + 1, p)
      ensures !res ==> Core(base) && RootPropagated(p) && Contradicts(history, base)
    {
      var w := ListOf(watchers, l)[j];
      BinaryWatch(memory, watchers, l, j);
      ghost var c := memory[w.clause].lits;
      NotInPrefix(trail, nextToPropagate - 1);
      ValMeans(vals, trail, w.blit);
      assert Implies(history, Lits(c));
      if Val(w.blit) < 0 {
        ConflictContradicts(history, base, trail, c);
        res := false;
      } else {
        BoundedClause(memory, trail, w.clause, w.blit, sizeVars);
        AssignImplied(w.blit, c, base, l, j, p);
        res := true;
        SettledOneMore(memory, trail, l, ListOf(watchers, l), j);
      }
    }

    /** A watch of a live clause with more than two literals, none of the blocking and the
        other watched literal being true: a replacement is searched for `l`. */
    method VisitLong(ghost base: set<int>, l: int, j: nat, ghost p: nat) returns (res: bool, kept: bool)
      requires Visiting(base, l, j, p) && j < |ListOf(watchers, l)|
      requires var r := ListOf(watchers, l)[j].clause;
               && Live(memory, r) && |memory[r].lits| > 2
               && memory[r].lits[1] == l && memory[r].lits[0] != l && Val(memory[r].lits[0]) <= 0
      modifies this`vals, this`trail, this`memory, this`watchers
      ensures old(trail) <= trail && SameClauses(old(memory), memory)
      ensures res ==> Visiting(base, l, if kept then j + 1 else j, p)
      ensures |ListOf(watchers, l)| == |old(ListOf(watchers, l))| - if kept then 0 else 1
      ensures !res ==> kept && Core(base) && RootPropagated(p) && Contradicts(history, base)
    {
      hide WatchInvariant, UsedImplied, TrailImplied, SettledList, Propagated, Distinct, ValsMatch, Implies,
           LiveFormula, Moved, Contradicts, SameClauses, Settled, Bounded;
      var w := ListOf(watchers, l)[j];
      var r := w.clause;
      var lits := memory[r].lits;
      var other := lits[0];
      SameClausesReflexive(memory);
      LongWatch(memory, watchers, history, r);
      NotInPrefix(trail, nextToPropagate - 1);
      var k := 2;
      while k < |lits| && Val(lits[k]) < 0
        invariant 2 <= k <= |lits|
        invariant forall i :: 2 <= i < k ==> Val(lits[i]) < 0
      {
        k := k + 1;
      }
      if k < |lits| {
        MoveTo(base, l, j, k, p);
        return true, false;
      }
      forall x | x in lits && x != other ensures -x in trail {
        var i :| 0 <= i < |lits| && lits[i] == x;
        ValMeans(vals, trail, x);
      }
      ValMeans(vals, trail, other);
      if Val(other) == 0 {
        BoundedClause(memory, trail, r, other, sizeVars);
        AssignImplied(other, lits, base, l, j, p);
        OtherIsFirst(memory, trail, l, w);
        SettledOneMore(memory, trail, l, ListOf(watchers, l), j);
        return true, true;
      } else {
        ConflictContradicts(history, base, trail, lits);
        return false, true;
      }
    }

    /** The watch is moved to literal `k` of the clause, which is not false. */
    method MoveTo(ghost base: set<int>, l: int, j: nat, k: nat, ghost p: nat)
      requires Visiting(base, l, j, p) && j < |ListOf(watchers, l)|
      requires var r := ListOf(watchers, l)[j].clause;
               && Live(memory, r) && 2 <= k < |memory[r].lits|
               && memory[r].lits[1] == l && Val(memory[r].lits[k]) >= 0
      modifies this`memory, this`watchers
      ensures Visiting(base, l, j, p) && SameClauses(old(memory), memory)
      ensures |ListOf(watchers, l)| == |old(ListOf(watchers, l))| - 1
    {
      hide WatchInvariant, UsedImplied, TrailImplied, SettledList, Propagated, Distinct, ValsMatch, Implies,
           LiveFormula, Contradicts, SameClauses, ListOf, Bounded;
      ghost var mem, ws := memory, watchers;
      var list := ListOf(watchers, l);
      var r := list[j].clause;
      var lits := memory[r].lits;
      var replacement := lits[k];
      LongWatch(memory, watchers, history, r);
      SizeOfWatch(memory, watchers, l, j);
      NotInPrefix(trail, nextToPropagate - 1);
      PrefixInside(trail, p, nextToPropagate - 1);
      ValMeans(vals, trail, replacement);
      watchers := watchers[replacement := ListOf(watchers, replacement) + [Watch(l, memory[r].size, r)]];
      memory := memory[r := memory[r].(lits := lits[1 := lits[k]][k := lits[1]])];
      watchers := watchers[l := list[..j] + list[j + 1..]];
      assert watchers == Moved(ws, l, j, replacement);
      ReplacedMultiset(lits, memory[r].lits, l, k);
      assert Moves(mem, memory, ws, l, j, k);
      MovedIsGood(mem, memory, ws, l, j, k);
      MovedPropagated(mem, memory, ws, l, j, k, trail, nextToPropagate - 1);
      MovedPropagated(mem, memory, ws, l, j, k, trail[..p], p);
      MovedPrefixSettled(mem, memory, ws, l, j, k, trail);
      RearrangedMemory(history, mem, memory, r);
      SameClausesReflexive(mem);
      RearrangedSame(mem, mem, memory, r);
      BoundedSame(mem, memory, trail, sizeVars);
    }

    /** Moves the false literal to the second place of its clause. */
    method SwapToSecond(ghost base: set<int>, l: int, j: nat, ghost p: nat)
      requires Visiting(base, l, j, p) && j < |ListOf(watchers, l)| && Live(memory, ListOf(watchers, l)[j].clause)
      modifies this`memory
      ensures Visiting(base, l, j, p) && SameClauses(old(memory), memory)
      ensures var r := ListOf(watchers, l)[j].clause;
              && Live(memory, r) && |memory[r].lits| == |old(memory)[r].lits| >= 2
              && memory[r].lits[1] == l && memory[r].lits[0] == Other(old(memory)[r].lits, l) != l
    {
      hide WatchInvariant, UsedImplied, TrailImplied, SettledList, Propagated, Distinct, ValsMatch, Implies,
           SameClauses, ListOf, Rearranged, Bounded, GoodTrail, LiveFormula, SameWatched, Contradicts;
      var r := ListOf(watchers, l)[j].clause;
      WatchFacts(memory, watchers, l, j);
      SameClausesReflexive(memory);
      ghost var mem := memory;
      var other := Other(memory[r].lits, l);
      memory := memory[r := memory[r].(lits := [other, l] + memory[r].lits[2..])];
      SwapFront(mem[r].lits, l);
      SwapIsRearranged(mem, memory, r);
      SwapIsSameWatched(mem, memory, r, l);
      hide Other;
      SwapWatched(mem, memory, watchers, r, trail, nextToPropagate - 1);
      SwapWatched(mem, memory, watchers, r, trail[..p], p);
      SwapPrefix(mem, memory, watchers, l, j, trail);
      RearrangedMemory(history, mem, memory, r);
      RearrangedSame(mem, mem, memory, r);
      BoundedSame(mem, memory, trail, sizeVars);
    }

    /** The watch of a live clause whose blocking and other watched literal are not true. */
    method VisitUnsatisfied(ghost base: set<int>, l: int, j: nat, ghost p: nat) returns (res: bool, kept: bool)
      requires Visiting(base, l, j, p) && j < |ListOf(watchers, l)|
      requires var r := ListOf(watchers, l)[j].clause;
               && Live(memory, r) && |memory[r].lits| > 2 && Val(Other(memory[r].lits, l)) <= 0
      modifies this`vals, this`trail, this`memory, this`watchers
      ensures old(trail) <= trail && SameClauses(old(memory), memory)
      ensures res ==> Visiting(base, l, if kept then j + 1 else j, p)
      ensures |ListOf(watchers, l)| == |old(ListOf(watchers, l))| - if kept then 0 else 1
      ensures !res ==> kept && Core(base) && RootPropagated(p) && Contradicts(history, base)
    {
      hide WatchInvariant, UsedImplied, TrailImplied, SettledList, Propagated, Distinct, ValsMatch, Implies,
           Contradicts, SameClauses, Settled, ListOf, Rearranged, Bounded, Other;
      SwapToSecond(base, l, j, p);
      ghost var swapped := memory;
      res, kept := VisitLong(base, l, j, p);
      SameClausesTransitive(old(memory), swapped, memory);
    }

    /** One watch of the list; returns whether it stays in the list, and false on conflict. */
    method Visit(ghost base: set<int>, l: int, j: nat, ghost p: nat) returns (res: bool, kept: bool)
      requires Visiting(base, l, j, p) && j < |ListOf(watchers, l)|
      modifies this`vals, this`trail, this`memory, this`watchers
      ensures old(trail) <= trail && SameClauses(old(memory), memory)
      ensures res ==> Visiting(base, l, if kept then j + 1 else j, p)
      ensures |ListOf(watchers, l)| == |old(ListOf(watchers, l))| - if kept then 0 else 1
      ensures !res ==> kept && Core(base) && RootPropagated(p) && Contradicts(history, base)
    {
      hide WatchInvariant, UsedImplied, TrailImplied, SettledList, Propagated, Distinct, ValsMatch, Implies,
           Contradicts, SameClauses, Settled, ListOf, Rearranged, Bounded;
      var list := ListOf(watchers, l);
      var w := list[j];
      var r := w.clause;
      SameClausesReflexive(memory);
      NotInPrefix(trail, nextToPropagate - 1);
      PrefixInside(trail, p, nextToPropagate - 1);
      WatchFacts(memory, watchers, l, j);
      if Val(w.blit) > 0 {
        ValMeans(vals, trail, w.blit);
        BlitSettles(memory, trail, l, w);
        SettledOneMore(memory, trail, l, list, j);
        return true, true;
      }
      if w.size == 2 {
        res := VisitBinary(base, l, j, p);
        return res, true;
      }
      if memory[r].size == 0 {
        DropGarbage(memory, watchers, l, j, trail, nextToPropagate - 1);
        DropGarbage(memory, watchers, l, j, trail[..p], p);
        watchers := watchers[l := list[..j] + list[j + 1..]];
        UpdatedList(watchers, l, list[..j] + list[j + 1..]);
        assert (list[..j] + list[j + 1..])[..j] == list[..j];
        return true, false;
      }
      var other := Other(memory[r].lits, l);
      if Val(other) > 0 {
        ValMeans(vals, trail, other);
        ChangeBlit(memory, watchers, l, j, other, trail, nextToPropagate - 1);
        ChangeBlit(memory, watchers, l, j, other, trail[..p], p);
        watchers := watchers[l := list[j := w.(blit := other)]];
        UpdatedList(watchers, l, list[j := w.(blit := other)]);
        BlitSettles(memory, trail, l, w.(blit := other));
        assert list[j := w.(blit := other)][..j] == list[..j];
        SettledOneMore(memory, trail, l, list[j := w.(blit := other)], j);
        return true, true;
      }
      res, kept := VisitUnsatisfied(base, l, j, p);
    }

    /** Visits the watches of the negation of the literal just taken from the trail. */
    method PropagateLiteral(ghost base: set<int>, l: int, ghost p: nat) returns (res: bool)
      requires Visiting(base, l, 0, p)
      modifies this`vals, this`trail, this`memory, this`watchers
      ensures Core(base) && RootPropagated(p) && old(trail) <= trail && SameClauses(old(memory), memory)
      ensures res ==> Propagated(memory, watchers, trail, nextToPropagate)
      ensures !res ==> Contradicts(history, base)
    {
      hide WatchInvariant, UsedImplied, TrailImplied, SettledList, Propagated, ValsMatch, Contradicts, SameClauses,
           ListOf, Distinct, Bounded;
      res := true;
      var j := 0;
      SameClausesReflexive(memory);
      while res && j < |ListOf(watchers, l)|
        invariant old(trail) <= trail && SameClauses(old(memory), memory)
        invariant res ==> Visiting(base, l, j, p)
        invariant !res ==> Core(base) && RootPropagated(p) && Contradicts(history, base)
        invariant j <= |ListOf(watchers, l)|
        decreases |ListOf(watchers, l)| - j, res
      {
        ghost var mem := memory;
        var kept;
        res, kept := Visit(base, l, j, p);
        SameClausesTransitive(old(memory), mem, memory);
        if kept {
          j := j + 1;
        }
      }
      if res {
        assert ListOf(watchers, l)[..j] == ListOf(watchers, l);
        OneMorePropagated(memory, watchers, trail, nextToPropagate - 1);
      }
    }

    /** Propagates all literals on the trail; returns false on conflict. */
    method Propagate(ghost base: set<int>, ghost p: nat) returns (res: bool)
      requires Core(base) && RootPropagated(p) && p <= nextToPropagate
      requires Propagated(memory, watchers, trail, nextToPropagate)
      modifies this`vals, this`trail, this`memory, this`watchers, this`nextToPropagate
      ensures Core(base) && RootPropagated(p) && old(trail) <= trail && SameClauses(old(memory), memory)
      ensures p <= nextToPropagate
      ensures res ==> nextToPropagate == |trail| && Propagated(memory, watchers, trail, |trail|)
      ensures !res ==> Contradicts(history, base)
    {
      hide WatchInvariant, UsedImplied, TrailImplied, SettledList, Propagated, ValsMatch, Contradicts, SameClauses,
           ListOf, Distinct, Bounded;
      res := true;
      SameClausesReflexive(memory);
      while res && nextToPropagate < |trail|
        invariant Core(base) && RootPropagated(p) && p <= nextToPropagate
        invariant res ==> Propagated(memory, watchers, trail, nextToPropagate)
        invariant !res ==> Contradicts(history, base)
        invariant old(trail) <= trail && SameClauses(old(memory), memory)
        decreases sizeVars - nextToPropagate
      {
        BoundedTrail(memory, trail, sizeVars);
        var lit := trail[nextToPropagate];
        nextToPropagate := nextToPropagate + 1;
        NothingVisited(memory, trail, -lit, ListOf(watchers, -lit));
        ghost var mem := memory;
        res := PropagateLiteral(base, -lit, p);
        SameClausesTransitive(old(memory), mem, memory);
      }
    }

    // ------------------------------------------------------------ checking

    /** Between two operations: the trail is completely propagated. */
    ghost predicate AtRoot()
      reads `vals, `watchers, `memory, `trail, `nextToPropagate, `sizeVars, `history
    {
      Core({}) && nextToPropagate == |trail| && Propagated(memory, watchers, trail, |trail|)
    }

    /** Assumes the negations of the literals of a clause that is not satisfied. */
    method AssumeNegations(c: Clause, ghost root: seq<int>)
      requires AtRoot() && trail == root && Distinct(c)
      requires forall x :: x in c ==> Val(x) <= 0 && Abs(x) < sizeVars
      modifies this`vals, this`trail
      ensures Core(Negations(Lits(c))) && RootPropagated(|root|) && root <= trail
      ensures Propagated(memory, watchers, trail, nextToPropagate)
      ensures Lits(root) + Negations(Lits(c)) == Lits(trail)
    {
      hide WatchInvariant, UsedImplied, TrailImplied, Propagated, Bounded, Implies, GoodTrail, Distinct, ValsMatch;
      assert root[..|root|] == root;
      MoreAssumptions(history, {}, Negations(Lits(c)), trail);
      assert c[..0] == [];
      forall x | x in c ensures x !in trail {
        ValMeans(vals, trail, x);
      }
      for i := 0 to |c|
        invariant Core(Negations(Lits(c))) && RootPropagated(|root|) && root <= trail && nextToPropagate == |root|
        invariant Propagated(memory, watchers, trail, nextToPropagate)
        invariant Lits(root) + Negations(Lits(c[..i])) == Lits(trail)
        invariant forall x :: x in c && x !in c[..i] ==> x !in trail
      {
        DistinctStep(c, i);
        var lit := c[i];
        assert lit in c && lit !in c[..i];
        ValMeans(vals, trail, -lit);
        ghost var before := trail;
        if Val(-lit) <= 0 {
          InNegations(Lits(c), -lit);
          AssumeImplied(history, Negations(Lits(c)), trail, -lit);
          AssignKeepsSettled(memory, watchers, trail, -lit, nextToPropagate);
          BoundedAssign(memory, trail, -lit, sizeVars);
          Assign(-lit);
          assert trail[..|root|] == root;
          assert trail == before + [-lit];
        }
        assert Lits(trail) == Lits(before) + {-lit} by {
          assert trail == before + [-lit] || (trail == before && -lit in before);
        }
        NegationsStep(c, i);
      }
      assert c[..|c|] == c;
    }

    /** Accepts a clause if assuming its negation leads to a conflict by propagation. */
    method Check(c: Clause) returns (res: bool)
      requires AtRoot() && Distinct(c)
      requires forall x :: x in c ==> Val(x) <= 0 && Abs(x) < sizeVars
      modifies this`vals, this`trail, this`memory, this`watchers, this`nextToPropagate
      ensures AtRoot() && trail == old(trail) && SameClauses(old(memory), memory)
      ensures res ==> Implies(history, Lits(c))
      ensures !res ==> forall steps :: !Refutes(LiveFormula(old(memory)), Lits(trail) + Negations(Lits(c)), steps)
    {
      hide WatchInvariant, UsedImplied, TrailImplied, Propagated, Bounded, Implies, Contradicts, LiveFormula,
           SameClauses,
           Quiescent, Distinct, GoodTrail, ValsMatch;
      var previouslyPropagated := nextToPropagate;
      ghost var root := trail;
      assert TrailImplied(history, {}, root);
      AssumeNegations(c, root);
      ghost var assumed := trail;
      res := Propagate(Negations(Lits(c)), |root|);
      res := !res;
      if res {
        RefutedIsImplied(history, c);
      } else {
        PropagatedIsQuiescent(memory, watchers, trail);
        SameClausesLive(old(memory), memory);
        PrefixLits(assumed, trail);
        NothingRefutes(LiveFormula(memory), Lits(assumed), trail);
      }
      assert trail[..|root|] == root;
      PrefixBounded(memory, trail, |root|, sizeVars);
      Backtrack(previouslyPropagated);
    }

    // ------------------------------------------------------------ storing

    method EnlargeVars(idx: nat)
      requires 0 < idx && AtRoot()
      modifies this`sizeVars
      ensures AtRoot() && idx < sizeVars && old(sizeVars) <= sizeVars
    {
      hide WatchInvariant, UsedImplied, TrailImplied, Propagated, Bounded, GoodTrail, ValsMatch;
      var newSizeVars := if sizeVars > 0 then 2 * sizeVars else 2;
      while idx >= newSizeVars
        invariant newSizeVars >= 2 && newSizeVars >= sizeVars
        decreases idx - newSizeVars
      {
        newSizeVars := newSizeVars * 2;
      }
      BoundedLarger(memory, trail, sizeVars, newSizeVars);
      sizeVars := newSizeVars;
    }

    /** Makes room for the variables of a clause. */
    method ImportClause(c: Clause)
      requires AtRoot() && 0 !in c
      modifies this`sizeVars
      ensures AtRoot() && old(sizeVars) <= sizeVars
      ensures forall x :: x in c ==> Abs(x) < sizeVars
    {
      hide AtRoot;
      for i := 0 to |c|
        invariant AtRoot() && old(sizeVars) <= sizeVars
        invariant forall k :: 0 <= k < i ==> Abs(c[k]) < sizeVars
      {
        assert c[i] in c;
        if Abs(c[i]) >= sizeVars {
          EnlargeVars(Abs(c[i]));
        }
      }
    }

    /** Allocates a clause and watches two of its literals that have no value. */
    method NewClause(c: Clause, hash: nat) returns (r: int)
      requires AtRoot() && nextRef !in memory && Distinct(c) && Implies(history, Lits(c))
      requires forall x :: x in c ==> Abs(x) < sizeVars
      requires exists i, j :: 0 <= i < j < |c| && Val(c[i]) == 0 && Val(c[j]) == 0
      modifies this`memory, this`watchers, this`nextRef
      ensures AtRoot() && r == old(nextRef) && nextRef == r + 1
      ensures r !in old(memory) && r in memory && memory == old(memory)[r := memory[r]]
      ensures memory[r].size != 0 && memory[r].hash == hash && Lits(memory[r].lits) == Lits(c)
    {
      hide WatchInvariant, UsedImplied, TrailImplied, Propagated, Bounded, GoodTrail, ValsMatch, Distinct, Implies;
      r := nextRef;
      ghost var mem, ws := memory, watchers;
      var held := set x | x in c && Val(x) != 0;
      HeldMeans(c, held, vals);
      var lits := WatchableFirst(c, held);
      SameMultisetSameLits(c, lits);
      RearrangedDistinct(c, lits);
      var stored := CheckerClause(lits, |lits|, hash);
      assert GoodClause(stored);
      NewClauseWatched(mem, ws, r, stored);
      assert lits[0] in lits && lits[1] in lits;
      ValMeans(vals, trail, lits[0]);
      ValMeans(vals, trail, lits[1]);
      NewClausePropagated(mem, ws, WithWatches(ws, r, lits[0], lits[1], |lits|), r, stored, trail, |trail|);
      NewClauseImplied(history, mem, trail, r, stored, sizeVars);
      watchers := WithWatches(watchers, r, lits[0], lits[1], |lits|);
      memory := memory[r := stored];
      nextRef := nextRef + 1;
    }

    /** Stores a clause with at least two literals without a value in the hash table. */
    method Insert(c: Clause, id: nat)
      requires AtRoot() && TableOk() && |nonces| == 4 && Distinct(c) && Implies(history, Lits(c))
      requires forall x :: x in c ==> Abs(x) < sizeVars
      requires exists i, j :: 0 <= i < j < |c| && Val(c[i]) == 0 && Val(c[j]) == 0
      modifies this`memory, this`watchers, this`buckets, this`numClauses, this`nextRef
      ensures AtRoot() && TableOk()
      ensures var r := old(nextRef);
              && r !in old(memory) && r in memory && memory == old(memory)[r := memory[r]]
              && memory[r].size != 0 && memory[r].hash == HashOf(nonces, id) && Lits(memory[r].lits) == Lits(c)
    {
      hide AtRoot, StorageOk, Distinct, Implies, HashOf, LiveRefs, Reduce, HoldsRefs;
      StorageMeans(memory, buckets, numClauses, garbage, numGarbage, nextRef);
      if numClauses == |buckets| {
        buckets := EnlargeClauses(memory, buckets, LiveRefs(memory));
      }
      if numClauses > 0 {
        NonEmptyTable(memory, buckets, LiveRefs(memory));
      }
      var h := ReduceHash(HashOf(nonces, id), |buckets|);
      ghost var mem := memory;
      var r := NewClause(c, HashOf(nonces, id));
      StorageInserted(mem, old(buckets), buckets, numClauses, garbage, numGarbage, r, memory[r], h);
      numClauses := numClauses + 1;
      buckets := buckets[h := [r] + buckets[h]];
    }

    // ------------------------------------------------------------ removing

    /** Takes a clause out of the hash table and puts it on the garbage list. */
    method RemoveClause(b: nat, k: nat)
      requires AtRoot() && TableOk() && b < |buckets| && k < |buckets[b]|
      modifies this`memory, this`buckets, this`numClauses, this`garbage, this`numGarbage
      ensures AtRoot() && TableOk()
      ensures var r := old(buckets)[b][k];
              && r in old(memory) && old(memory)[r].size != 0
              && memory == old(memory)[r := old(memory)[r].(size := 0)]
              && buckets == old(buckets)[b := old(buckets)[b][..k] + old(buckets)[b][k + 1..]]
      ensures MemoryImplied(history, old(memory)) ==> MemoryImplied(history, memory)
    {
      hide WatchInvariant, UsedImplied, TrailImplied, Propagated, Bounded, GoodTrail, ValsMatch, StorageOk,
           MemoryImplied;
      var r := buckets[b][k];
      StorageRemoved(memory, buckets, numClauses, garbage, numGarbage, nextRef, b, k);
      GarbageKeeps(history, memory, watchers, trail, sizeVars, r);
      numGarbage := numGarbage + 1;
      numClauses := numClauses - 1;
      buckets := buckets[b := buckets[b][..k] + buckets[b][k + 1..]];
      garbage := [r] + garbage;
      MemoryMarked(history, memory, r);
      memory := memory[r := memory[r].(size := 0)];
    }

    lemma RootMeans()
      requires AtRoot()
      ensures GoodTrail(trail) && ValsMatch(vals, trail) && TrailImplied(history, {}, trail)
    {
    }

    method ClauseSatisfied(c: Clause) returns (res: bool)
      ensures res <==> exists x :: x in c && Val(x) > 0
    {
      for i := 0 to |c|
        invariant forall k :: 0 <= k < i ==> Val(c[k]) <= 0
      {
        if Val(c[i]) > 0 {
          assert c[i] in c;
          return true;
        }
      }
      res := false;
    }

    /** Removes the satisfied clauses of the first buckets from the table. */
    method RemoveSatisfied()
      requires AtRoot() && TableOk()
      modifies this`memory, this`buckets, this`numClauses, this`garbage, this`numGarbage
      ensures AtRoot() && TableOk() && SatisfiedBecameGarbage(old(memory), memory, trail)
      ensures forall r :: Live(memory, r) ==> !SatisfiedBy(memory[r].lits, trail)
    {
      hide AtRoot, StorageOk, SatisfiedBecameGarbage, SatisfiedBy, HoldsRefs;
      var i := 0;
      NothingBecameGarbage(memory, trail);
      while i < |buckets|
        invariant AtRoot() && TableOk() && |buckets| == |old(buckets)| && i <= |buckets|
        invariant SatisfiedBecameGarbage(old(memory), memory, trail)
        invariant forall b, k :: 0 <= b < i && 0 <= k < |buckets[b]| ==> Unsatisfied(memory, buckets[b][k], trail)
      {
        ghost var mem := memory;
        RemoveSatisfiedOf(i);
        BecameGarbageTransitive(old(memory), mem, memory, trail);
        i := i + 1;
      }
      StorageMeans(memory, buckets, numClauses, garbage, numGarbage, nextRef);
      AllUnsatisfied(memory, buckets, trail);
    }

    /** Removes the satisfied clauses of one bucket. */
    method RemoveSatisfiedOf(i: nat)
      requires AtRoot() && TableOk() && i < |buckets|
      modifies this`memory, this`buckets, this`numClauses, this`garbage, this`numGarbage
      ensures AtRoot() && TableOk() && SatisfiedBecameGarbage(old(memory), memory, trail)
      ensures |buckets| == |old(buckets)| && forall b :: 0 <= b < |buckets| && b != i ==> buckets[b] == old(buckets)[b]
      ensures forall k :: 0 <= k < |buckets[i]| ==> Unsatisfied(memory, buckets[i][k], trail)
    {
      hide AtRoot, StorageOk, SatisfiedBecameGarbage, SatisfiedBy, TrailImplied, ValsMatch, GoodTrail, HoldsRefs;
      var k := 0;
      NothingBecameGarbage(memory, trail);
      while k < |buckets[i]|
        invariant AtRoot() && TableOk() && |buckets| == |old(buckets)| && k <= |buckets[i]|
        invariant forall b :: 0 <= b < |buckets| && b != i ==> buckets[b] == old(buckets)[b]
        invariant SatisfiedBecameGarbage(old(memory), memory, trail)
        invariant forall j :: 0 <= j < k ==> Unsatisfied(memory, buckets[i][j], trail)
        decreases |buckets[i]| - k
      {
        StorageMeans(memory, buckets, numClauses, garbage, numGarbage, nextRef);
        InTable(memory, buckets, i, k);
        ghost var mem := memory;
        var r := buckets[i][k];
        var satisfied := ClauseSatisfied(memory[r].lits);
        RootMeans();
        SatisfiedMeans(vals, trail, memory[r].lits, satisfied);
        if satisfied {
          RemoveClause(i, k);
          OneMoreGarbage(old(memory), mem, memory, trail, r);
        } else {
          k := k + 1;
        }
      }
    }

    /** Drops the watches of garbage clauses from all watch lists. */
    method FlushAllWatches()
      requires WatchInvariant(memory, watchers) && Bounded(memory, trail, sizeVars)
      modifies this`watchers
      ensures forall l :: ListOf(watchers, l) == LiveWatches(memory, ListOf(old(watchers), l))
    {
      hide LiveWatches, WatchInvariant;
      ghost var ws := watchers;
      var size: int := sizeVars;
      var lit: int := 1 - size;
      while lit < size
        invariant 1 - size <= lit && size == sizeVars && Bounded(memory, trail, sizeVars)
        invariant forall l :: ListOf(watchers, l)
                    == if Abs(l) < size && l < lit && l != 0 then LiveWatches(memory, ListOf(ws, l)) else ListOf(ws, l)
      {
        if lit != 0 {
          WatchesInMemory(memory, ws, lit);
          var list := FlushWatches(memory, ListOf(watchers, lit));
          watchers := watchers[lit := list];
        }
        lit := lit + 1;
      }
      forall l ensures ListOf(watchers, l) == LiveWatches(memory, ListOf(ws, l)) {
        NoWatchesOutside(memory, ws, trail, sizeVars, l);
      }
    }

    /** Removes satisfied clauses and frees all garbage clauses. */
    method CollectGarbageClauses()
      requires AtRoot() && TableOk() && Registry(memory, trail, nonces, added, refOf)
      modifies this`memory, this`watchers, this`buckets, this`numClauses, this`garbage, this`numGarbage, this`refOf
      ensures AtRoot() && TableOk() && Registry(memory, trail, nonces, added, refOf)
      ensures forall r :: r in memory ==> r in old(memory) && memory[r] == old(memory)[r] && Live(memory, r)
      ensures forall r :: Live(old(memory), r) && !SatisfiedBy(old(memory)[r].lits, trail) ==> r in memory
    {
      hide AtRoot, StorageOk, Registry, SatisfiedBecameGarbage, SatisfiedBy, Live;
      ghost var mem0 := memory;
      RemoveSatisfied();
      FreeGarbage(mem0);
    }

    /** Frees the garbage clauses and drops their watches. */
    method FreeGarbage(ghost mem0: Memory)
      requires AtRoot() && TableOk() && SatisfiedBecameGarbage(mem0, memory, trail)
      requires Registry(mem0, trail, nonces, added, refOf)
      requires forall r :: Live(memory, r) ==> !SatisfiedBy(memory[r].lits, trail)
      modifies this`memory, this`watchers, this`garbage, this`numGarbage, this`refOf
      ensures AtRoot() && TableOk() && Registry(memory, trail, nonces, added, refOf)
      ensures forall r :: r in memory ==> r in mem0 && memory[r] == mem0[r] && Live(memory, r)
      ensures forall r :: Live(mem0, r) && !SatisfiedBy(mem0[r].lits, trail) ==> r in memory
    {
      hide AtRoot, StorageOk, Registry, SatisfiedBecameGarbage, SatisfiedBy, Live, WithoutGarbage;
      StorageFreed(memory, buckets, numClauses, garbage, numGarbage, nextRef);
      RegistryCollected(mem0, memory, trail, nonces, added, refOf);
      CollectedMeans(mem0, memory, trail);
      FreeMemory();
      garbage := [];
      numGarbage := 0;
      refOf := map id | id in refOf && refOf[id] in memory :: refOf[id];
    }

    method FreeMemory()
      requires AtRoot()
      modifies this`memory, this`watchers
      ensures AtRoot() && memory == WithoutGarbage(old(memory))
    {
      hide WatchInvariant, UsedImplied, TrailImplied, Propagated, Bounded, GoodTrail, ValsMatch, LiveWatches,
           WithoutGarbage;
      ghost var mem, ws := memory, watchers;
      FlushAllWatches();
      CollectKeeps(mem, ws, watchers, trail, |trail|);
      FreedKeeps(history, mem, trail, sizeVars);
      memory := WithoutGarbage(memory);
    }

    // ------------------------------------------------------------ adding

    /** The only literal without a value, zero if all literals are false, and the smallest
        integer if there are several. */
    method FindUnit(c: Clause) returns (unit: int)
      requires 0 !in c && INT_MIN !in c
      ensures unit == 0 <==> forall x :: x in c ==> Val(x) < 0
      ensures unit != 0 && unit != INT_MIN ==> unit in c && Val(unit) >= 0
      ensures unit != 0 && unit != INT_MIN ==> forall x :: x in c && x != unit ==> Val(x) < 0
      ensures unit == INT_MIN ==> exists i, j :: 0 <= i < j < |c| && Val(c[i]) >= 0 && Val(c[j]) >= 0
      requires Distinct(c)
    {
      unit := 0;
      ghost var at := 0;
      for i := 0 to |c|
        invariant unit == 0 ==> forall k :: 0 <= k < i ==> Val(c[k]) < 0
        invariant unit != 0 ==> 0 <= at < i && c[at] == unit && Val(unit) >= 0
        invariant unit != 0 ==> forall k :: 0 <= k < i && k != at ==> Val(c[k]) < 0
      {
        assert c[i] in c;
        var tmp := Val(c[i]);
        if tmp < 0 {
          continue;
        }
        if unit != 0 {
          assert Val(c[at]) >= 0 && Val(c[i]) >= 0;
          return INT_MIN;
        }
        unit := c[i];
        at := i;
      }
      if unit != 0 {
        assert c[at] in c;
      }
    }

    /** Adds a simplified clause that is implied by the history. */
    method AddClause(c: Clause, id: nat)
      requires !inconsistent && AtRoot() && TableOk() && Registry(memory, trail, nonces, added, refOf)
      requires Distinct(c) && INT_MIN !in c && Implies(history, Lits(c)) && id !in added
      requires forall x :: x in c ==> x !in trail && Abs(x) < sizeVars
      modifies this
      ensures history == old(history) && originals == old(originals) && rup == old(rup) && sizeVars == old(sizeVars)
      ensures trusted == old(trusted)
      ensures added == old(added)[id := Lits(c)] && old(trail) <= trail
      ensures StoresAtMost(old(memory), memory, Lits(c))
      ensures inconsistent ==> Contradicts(history, {})
      ensures !inconsistent ==> AtRoot() && TableOk() && Registry(memory, trail, nonces, added, refOf)
      ensures (forall x :: x in c ==> -x in old(trail)) ==> inconsistent
      ensures if 2 * old(numGarbage) > (if |old(buckets)| > sizeVars then |old(buckets)| else sizeVars)
              then forall r :: r in memory ==> Live(memory, r) else forall r :: r in old(memory) ==> r in memory
    {
      hide AtRoot, GoodTrail, ValsMatch, StorageOk, Registry, Implies, Contradicts, Distinct, TrailImplied, Live,
           SatisfiedBy, LiveRefs, HashOf, MemoryStaysLive;
      RegistryNonces(memory, trail, nonces, added, refOf);
      if 2 * numGarbage > (if |buckets| > sizeVars then |buckets| else sizeVars) {
        CollectGarbageClauses();
      }
      ghost var mem := memory;
      AddByUnits(c, id);
      FewerStoreNothing(old(memory), mem, memory, Lits(c));
      StaysLiveMeans(mem, memory);
    }

    /** Distinguishes falsified, unit and longer clauses. */
    method AddByUnits(c: Clause, id: nat)
      requires !inconsistent && AtRoot() && TableOk() && Registry(memory, trail, nonces, added, refOf)
      requires Distinct(c) && INT_MIN !in c && Implies(history, Lits(c)) && id !in added
      requires forall x :: x in c ==> x !in trail && Abs(x) < sizeVars
      modifies this
      ensures history == old(history) && originals == old(originals) && rup == old(rup) && sizeVars == old(sizeVars)
      ensures trusted == old(trusted)
      ensures added == old(added)[id := Lits(c)] && old(trail) <= trail
      ensures StoresAtMost(old(memory), memory, Lits(c))
      ensures inconsistent ==> Contradicts(history, {})
      ensures !inconsistent ==> AtRoot() && TableOk() && Registry(memory, trail, nonces, added, refOf)
      ensures (forall x :: x in c ==> -x in old(trail)) ==> inconsistent
      ensures MemoryStaysLive(old(memory), memory)
    {
      hide AtRoot, GoodTrail, ValsMatch, StorageOk, Registry, Implies, Contradicts, Distinct, TrailImplied, Live,
           SatisfiedBy, LiveRefs, HashOf, MemoryStaysLive, SameClauses, StoresAtMost;
      SameClausesReflexive(memory);
      SameStaysLive(memory, memory);
      DistinctNonZero(c);
      RootMeans();
      ValsOf(vals, trail, c);
      var unit := FindUnit(c);
      if |c| == 0 {
        inconsistent := true;
      }
      SameStoresNothing(memory, memory, Lits(c));
      if unit == 0 {
        ConflictContradicts(history, {}, trail, c);
        inconsistent := true;
        added := added[id := Lits(c)];
      } else if unit != INT_MIN {
        AddUnit(unit, c, id);
      } else {
        AddLong(c, id);
      }
    }

    /** A clause with several literals left over is stored. */
    method AddLong(c: Clause, id: nat)
      requires AtRoot() && TableOk() && Registry(memory, trail, nonces, added, refOf)
      requires Distinct(c) && Implies(history, Lits(c)) && id !in added
      requires forall x :: x in c ==> Abs(x) < sizeVars
      requires exists i, j :: 0 <= i < j < |c| && Val(c[i]) == 0 && Val(c[j]) == 0
      modifies this`memory, this`watchers, this`buckets, this`numClauses, this`nextRef, this`added, this`refOf
      ensures AtRoot() && TableOk() && Registry(memory, trail, nonces, added, refOf)
      ensures added == old(added)[id := Lits(c)] && StoresAtMost(old(memory), memory, Lits(c))
      ensures MemoryStaysLive(old(memory), memory)
    {
      hide AtRoot, StorageOk, Registry, Implies, Distinct, StoresAtMost, MemoryStaysLive;
      RegistryNonces(memory, trail, nonces, added, refOf);
      RegistryNew(memory, trail, nonces, added, refOf, nextRef);
      StorageMeans(memory, buckets, numClauses, garbage, numGarbage, nextRef);
      ghost var mem := memory;
      ghost var r := nextRef;
      Insert(c, id);
      RegistryStored(mem, memory, trail, nonces, added, refOf, id, Lits(c), r);
      StoresOne(mem, memory, r, Lits(c));
      OneMoreStaysLive(mem, memory, r);
      added := added[id := Lits(c)];
      refOf := refOf[id := r];
    }

    /** A clause with one literal left over becomes a propagated unit. */
    method AddUnit(unit: int, c: Clause, id: nat)
      requires !inconsistent && AtRoot() && TableOk() && Registry(memory, trail, nonces, added, refOf)
      requires Distinct(c) && Implies(history, Lits(c)) && id !in added
      requires unit in c && unit != 0 && Abs(unit) < sizeVars && Val(unit) == 0
      requires forall x :: x in c && x != unit ==> -x in trail
      modifies this`vals, this`trail, this`memory, this`watchers, this`nextToPropagate, this`inconsistent, this`added
      ensures added == old(added)[id := Lits(c)] && old(trail) <= trail
      ensures StoresAtMost(old(memory), memory, Lits(c))
      ensures inconsistent ==> Contradicts(history, {})
      ensures !inconsistent ==> AtRoot() && TableOk() && Registry(memory, trail, nonces, added, refOf)
      ensures MemoryStaysLive(old(memory), memory)
    {
      hide WatchInvariant, UsedImplied, TrailImplied, Propagated, Bounded, GoodTrail, ValsMatch, StorageOk, Registry,
           Implies, Contradicts, Distinct, SameClauses, StoresAtMost, MemoryStaysLive;
      ghost var mem, before := memory, trail;
      UnitIsImplied(history, {}, trail, c, unit);
      AssignKeepsSettled(memory, watchers, trail, unit, |trail|);
      BoundedAssign(memory, trail, unit, sizeVars);
      Assign(unit);
      NothingPropagated(memory, watchers, trail[..0]);
      var ok := Propagate({}, 0);
      if !ok {
        inconsistent := true;
      }
      assert trail[|before|] == unit;
      StorageSame(mem, memory, buckets, numClauses, garbage, numGarbage, nextRef);
      RegistrySame(mem, memory, before, trail, nonces, added, refOf);
      RegistryTrue(memory, trail, nonces, added, refOf, id, Lits(c), unit);
      SameStoresNothing(mem, memory, Lits(c));
      SameStaysLive(mem, memory);
      added := added[id := Lits(c)];
    }

    // ------------------------------------------------------------ the operations of a proof

    /** Notes an implied or believed clause; nothing else has to change. */
    ghost method Record(c: Clause)
      requires AtRoot()
      modifies this`history
      ensures AtRoot() && history == old(history) + {Lits(c)} && Implies(history, Lits(c))
      ensures MemoryImplied(old(history), memory) ==> MemoryImplied(history, memory)
    {
      hide WatchInvariant, Propagated, Bounded, GoodTrail, ValsMatch;
      HistoryGrows(history, Lits(c), memory, trail);
      if MemoryImplied(history, memory) {
        MemoryStays(history, Lits(c), memory);
      }
      history := history + {Lits(c)};
    }

    ghost method Believe(c: Clause)
      requires Valid() && !inconsistent
      modifies this`history, this`originals, this`trusted
      ensures Valid() && originals == old(originals) + {Lits(c)} && Implies(history, Lits(c))
      ensures history == old(history) + {Lits(c)}
      ensures trusted == rup
    {
      hide AtRoot, StorageOk, Registry, FormulaImplied, Implies, MemoryImplied, KeepsSatisfiable;
      Record(c);
      OriginalImplied(originals, old(history), Lits(c));
      if rup {
        OriginalKeeps(originals, old(history), Lits(c));
      }
      originals, trusted := originals + {Lits(c)}, rup;
    }

    /** Original clauses are believed. */
    method AddOriginalClause(id: nat, c: Clause)
      requires Valid() && 0 !in c && INT_MIN !in c && id !in added
      modifies this
      ensures Valid() && rup == old(rup) && trusted == (old(trusted) && (old(rup) || old(inconsistent)))
      ensures old(inconsistent) ==> inconsistent && originals == old(originals) && added == old(added)
      ensures !old(inconsistent) ==> originals == old(originals) + {Lits(c)} && added == old(added)[id := Lits(c)]
      ensures StoresAtMost(old(memory), memory, Lits(c))
      ensures history == if old(inconsistent) then old(history) else old(history) + {Lits(c)}
    {
      hide AtRoot, StorageOk, Registry, TrueOrTautological, Distinct, FormulaImplied, Implies, Contradicts,
           StoresAtMost, MemoryImplied, KeepsSatisfiable;
      SameStoresNothing(memory, memory, Lits(c));
      if inconsistent {
        return;
      }
      ImportClause(c);
      var ignored, simplified := Tautological(c, trail);
      ghost var mem := memory;
      Believe(c);
      if ignored {
        RegistryIgnored(memory, trail, nonces, added, refOf, id, Lits(c));
        added := added[id := Lits(c)];
      } else {
        SimplifiedFacts(c, simplified, trail);
        AddClause(simplified, id);
        if rup {
          MemoryGrows(history, mem, memory, Lits(c));
        }
      }
    }

    /** A derived clause has to be true at the root, refuted by propagation or blocked; the
        checker gives up otherwise. */
    method AddDerivedClause(id: nat, c: Clause) returns (ok: bool)
      requires Valid() && 0 !in c && INT_MIN !in c && id !in added
      modifies this
      ensures Valid() && originals == old(originals) && (rup ==> old(rup))
      ensures old(inconsistent) ==> ok && inconsistent && added == old(added) && rup == old(rup)
      ensures !old(inconsistent) && ok ==> added == old(added)[id := Lits(c)]
      ensures !old(inconsistent) && ok ==>
                || (rup == old(rup) && trusted == old(trusted) && Implies(old(history), Lits(c))
                    && history == old(history) + {Lits(c)})
                || (!rup && (exists l :: Survives(old(memory), old(trail), c, l))
                    && history == (if trusted then UsedFormula(old(memory), old(trail)) else old(history)) + {Lits(c)})
      ensures old(inconsistent) || !ok ==> history == old(history)
      ensures !ok ==> added == old(added) && rup == old(rup) && trusted == old(trusted) && !inconsistent
      ensures !ok ==> trail == old(trail) && SameClauses(old(memory), memory)
      ensures !ok ==> forall l :: !Survives(old(memory), old(trail), c, l)
      ensures !ok ==> !TrueOrTautological(Lits(c), old(trail))
      ensures trusted ==> old(trusted)
      ensures old(trusted) && !trusted ==> ok && !rup && forall l :: !Trusted(old(memory), old(trail), c, l)
      ensures !ok ==> forall steps :: !Refutes(LiveFormula(old(memory)), Lits(old(trail)) + Negations(Lits(c)), steps)
    {
      hide AtRoot, StorageOk, Registry, TrueOrTautological, Distinct, FormulaImplied, Implies, Contradicts,
           Refutes, LiveFormula, Survives, Trusted, SameClauses, StoresAtMost, Negations, MemoryImplied,
           KeepsSatisfiable;
      if inconsistent {
        return true;
      }
      ImportClause(c);
      var ignored, simplified := Tautological(c, trail);
      if ignored {
        IgnoreDerived(id, c);
        return true;
      }
      ok := AddChecked(id, c, simplified);
    }

    /** A derived clause that is tautological or true at the root is only noted. */
    method IgnoreDerived(id: nat, c: Clause)
      requires Valid() && !inconsistent && 0 !in c && id !in added && TrueOrTautological(Lits(c), trail)
      modifies this`history, this`added
      ensures Valid() && added == old(added)[id := Lits(c)] && Implies(old(history), Lits(c))
      ensures history == old(history) + {Lits(c)}
    {
      hide AtRoot, StorageOk, Registry, TrueOrTautological, FormulaImplied, Implies, Contradicts, MemoryImplied,
           KeepsSatisfiable;
      RootMeans();
      TrueIsImplied(history, trail, c);
      DerivedImplied(originals, history, Lits(c));
      if trusted {
        DerivedKeeps(originals, history, Lits(c));
      }
      Record(c);
      RegistryIgnored(memory, trail, nonces, added, refOf, id, Lits(c));
      added := added[id := Lits(c)];
    }

    /** A simplified derived clause has to be refuted by propagation or blocked. */
    method AddChecked(id: nat, c: Clause, simplified: Clause) returns (ok: bool)
      requires Valid() && !inconsistent && 0 !in c && INT_MIN !in c && id !in added
      requires (forall x :: x in c ==> Abs(x) < sizeVars)
      requires Lits(simplified) == Lits(c) && Distinct(simplified) && !TrueOrTautological(Lits(c), trail)
      modifies this
      ensures Valid() && originals == old(originals) && (rup ==> old(rup))
      ensures ok ==> added == old(added)[id := Lits(c)]
      ensures ok ==>
                || (rup == old(rup) && trusted == old(trusted) && Implies(old(history), Lits(c))
                    && history == old(history) + {Lits(c)})
                || (!rup && (exists l :: Survives(old(memory), old(trail), c, l))
                    && history == (if trusted then UsedFormula(old(memory), old(trail)) else old(history)) + {Lits(c)})
      ensures !ok ==> history == old(history)
      ensures !ok ==> added == old(added) && rup == old(rup) && trusted == old(trusted) && !inconsistent
      ensures !ok ==> trail == old(trail) && SameClauses(old(memory), memory)
      ensures !ok ==> forall l :: !Survives(old(memory), old(trail), c, l)
      ensures trusted ==> old(trusted)
      ensures old(trusted) && !trusted ==> ok && !rup && forall l :: !Trusted(old(memory), old(trail), c, l)
      ensures !ok ==> forall steps :: !Refutes(LiveFormula(old(memory)), Lits(old(trail)) + Negations(Lits(c)), steps)
    {
      hide AtRoot, StorageOk, Registry, TrueOrTautological, Distinct, FormulaImplied, Implies, Contradicts,
           Refutes, LiveFormula, Survives, Trusted, SameClauses, StoresAtMost, Negations, MemoryImplied,
           KeepsSatisfiable;
      SimplifiedFacts(c, simplified, trail);
      var refuted := CheckDerived(simplified);
      if !refuted {
        var blocked := IsBlocked(c);
        SurvivesSame(old(memory), memory, trail, c);
        UsedFormulaSame(old(memory), memory, trail);
        if !blocked {
          return false;
        }
        Accept(c);
      } else {
        DerivedImplied(originals, history, Lits(c));
        if trusted {
          DerivedKeeps(originals, history, Lits(c));
        }
        Record(c);
      }
      ghost var mem := memory;
      AddClause(simplified, id);
      if rup {
        MemoryGrows(history, mem, memory, Lits(c));
      }
      ok := true;
    }

    /** Notes a clause that was accepted as blocked.  If it is trusted, then what is in use stays satisfiable, and
        the rest of the history is forgotten. */
    ghost method Accept(c: Clause)
      requires AtRoot() && 0 !in c && (trusted ==> KeepsSatisfiable(originals, history))
      modifies this`history, this`rup, this`trusted
      ensures AtRoot() && !rup && Implies(history, Lits(c)) && (trusted ==> KeepsSatisfiable(originals, history))
      ensures trusted == (old(trusted) && exists l :: Trusted(memory, trail, c, l))
      ensures history == (if trusted then UsedFormula(memory, trail) else old(history)) + {Lits(c)}
    {
      rup := false;
      trusted := trusted && exists l :: Trusted(memory, trail, c, l);
      if trusted {
        var l :| Trusted(memory, trail, c, l);
        RootMemory();
        RootMeans();
        UsedImpliesUsed(history, memory, trail);
        TrustedKeepsSatisfiable(memory, trail, c, l);
        KeepsTransitive(originals, history, UsedFormula(memory, trail), Lits(c));
        history := UsedFormula(memory, trail);
      }
      Record(c);
    }

    method CheckDerived(c: Clause) returns (refuted: bool)
      requires AtRoot() && TableOk() && Registry(memory, trail, nonces, added, refOf) && Distinct(c)
      requires forall x :: x in c ==> x !in trail && Abs(x) < sizeVars
      modifies this`vals, this`trail, this`memory, this`watchers, this`nextToPropagate
      ensures AtRoot() && TableOk() && Registry(memory, trail, nonces, added, refOf)
      ensures trail == old(trail) && SameClauses(old(memory), memory)
      ensures MemoryImplied(history, old(memory)) ==> MemoryImplied(history, memory)
      ensures refuted ==> Implies(history, Lits(c))
      ensures !refuted ==> forall steps :: !Refutes(LiveFormula(old(memory)), Lits(trail) + Negations(Lits(c)), steps)
    {
      hide AtRoot, StorageOk, Registry, Distinct, Implies, Refutes, LiveFormula, ValsMatch, GoodTrail, MemoryImplied;
      RootMeans();
      ValsOf(vals, trail, c);
      ghost var mem := memory;
      refuted := Check(c);
      StorageSame(mem, memory, buckets, numClauses, garbage, numGarbage, nextRef);
      RegistrySame(mem, memory, trail, trail, nonces, added, refOf);
      MemorySame(history, mem, memory);
    }

    method IsBlocked(c: Clause) returns (blocked: bool)
      requires AtRoot() && TableOk()
      ensures blocked <==> exists l :: Survives(memory, trail, c, l)
    {
      StorageMeans(memory, buckets, numClauses, garbage, numGarbage, nextRef);
      blocked := CheckBlocked(memory, buckets, trail, c);
    }

    /** A clause that was added under the identifier and not deleted is always found, unless
        it is true at the root; other deletions may fail. */
    method DeleteClause(id: nat, c: Clause) returns (ok: bool)
      requires Valid() && 0 !in c
      requires inconsistent || |buckets| > 0 || (id in added && added[id] == Lits(c))
      modifies this
      ensures Valid() && originals == old(originals) && rup == old(rup) && inconsistent == old(inconsistent)
      ensures trusted == old(trusted)
      ensures history == old(history) && trail == old(trail) && (inconsistent ==> ok)
      ensures id in old(added) && old(added)[id] == Lits(c) && !inconsistent ==> ok && added == old(added) - {id}
      ensures !inconsistent && memory != old(memory) ==> ok && exists r ::
        && Live(old(memory), r) && Lits(old(memory)[r].lits) == Lits(c)
        && memory == old(memory)[r := old(memory)[r].(size := 0)]
      ensures !inconsistent && memory == old(memory) ==> ok == TrueOrTautological(Lits(c), trail)
      ensures if inconsistent then added == old(added) else OthersStay(nonces, old(added), added, id, Lits(c))
      ensures !inconsistent && ok && !TrueOrTautological(Lits(c), trail) ==>
                |nonces| == 4 && WasAdded(nonces, old(added), id, Lits(c))
      ensures !inconsistent ==> forall x :: x in c ==> Abs(x) < sizeVars
    {
      hide AtRoot, StorageOk, Registry, TrueOrTautological, Distinct, HashOf, HoldsRefs, LiveRefs, OthersStay,
           WasAdded, FormulaImplied, Contradicts, Live, MemoryImplied, KeepsSatisfiable;
      if inconsistent {
        return true;
      }
      OthersStayRemoved(nonces, added, id, Lits(c));
      ImportClause(c);
      var ignored, simplified := Tautological(c, trail);
      RegistryNonces(memory, trail, nonces, added, refOf);
      if ignored {
        Forget(id, c);
        return true;
      }
      assert Lits(simplified) == Lits(c);
      ok := DeleteStored(id, simplified);
    }

    /** A deleted clause that is true at the root is only no longer noted. */
    ghost method Forget(id: nat, c: Clause)
      requires Valid() && !inconsistent && TrueOrTautological(Lits(c), trail)
      modifies this`added, this`refOf
      ensures Valid() && OthersStay(nonces, old(added), added, id, Lits(c))
      ensures added == if id in old(added) && old(added)[id] == Lits(c) then old(added) - {id} else old(added)
    {
      hide AtRoot, StorageOk, Registry, TrueOrTautological, OthersStay, FormulaImplied, Contradicts, MemoryImplied,
           KeepsSatisfiable;
      RegistryNonces(memory, trail, nonces, added, refOf);
      OthersStayRemoved(nonces, added, id, Lits(c));
      if id in added && added[id] == Lits(c) {
        RegistryForgets(memory, trail, nonces, added, refOf, id);
        refOf := map i | i in refOf && i != id :: refOf[i];
        added := added - {id};
      }
    }

    /** Deletes a simplified clause that is not true at the root. */
    method DeleteStored(id: nat, c: Clause) returns (ok: bool)
      requires Valid() && !inconsistent && Distinct(c) && !TrueOrTautological(Lits(c), trail)
      requires |buckets| > 0 || (id in added && added[id] == Lits(c))
      modifies this`memory, this`buckets, this`numClauses, this`garbage, this`numGarbage, this`added, this`refOf
      ensures Valid()
      ensures id in old(added) && old(added)[id] == Lits(c) ==> ok && added == old(added) - {id}
      ensures memory != old(memory) ==> ok && exists r ::
        && Live(old(memory), r) && Lits(old(memory)[r].lits) == Lits(c)
        && memory == old(memory)[r := old(memory)[r].(size := 0)]
      ensures memory == old(memory) ==> !ok
      ensures OthersStay(nonces, old(added), added, id, Lits(c))
      ensures ok ==> WasAdded(nonces, old(added), id, Lits(c))
    {
      hide AtRoot, StorageOk, Registry, TrueOrTautological, Distinct, HashOf, HoldsRefs, LiveRefs, Contradicts,
           WasAdded, FormulaImplied, GoodMemory, Matches, OthersStay, MemoryImplied, KeepsSatisfiable, AfterDelete;
      OthersStayRemoved(nonces, added, id, Lits(c));
      RegistryNonces(memory, trail, nonces, added, refOf);
      StorageMeans(memory, buckets, numClauses, garbage, numGarbage, nextRef);
      RootMemory();
      RegisteredIsStored(memory, trail, nonces, added, refOf, buckets, id, c);
      var b, k := Find(memory, buckets, HashOf(nonces, id), c, LiveRefs(memory));
      if k < |buckets[b]| {
        var d := buckets[b][k];
        InTable(memory, buckets, b, k);
        ghost var after := AfterDelete(added, refOf, id, Lits(c), d);
        FoundIsDeleted(memory, trail, nonces, added, refOf, id, c, d);
        RemoveClause(b, k);
        added, refOf := after.0, after.1;
        ok := true;
      } else {
        ok := false;
      }
    }

    lemma RootMemory()
      requires AtRoot()
      ensures GoodMemory(memory)
    {
    }

    /** An assumption clause is checked like a derived one and forgotten again. */
    method AddAssumptionClause(id: nat, c: Clause) returns (ok: bool)
      requires Valid() && 0 !in c && INT_MIN !in c && id !in added
      modifies this
      ensures Valid() && originals == old(originals) && (trusted ==> old(trusted)) && (rup ==> old(rup))
      ensures old(inconsistent) ==> ok && inconsistent && added == old(added)
      ensures !inconsistent ==> added == old(added)
      ensures inconsistent && !old(inconsistent) ==> added == old(added)[id := Lits(c)]
      ensures !old(inconsistent) && ok ==>
                || (rup == old(rup) && trusted == old(trusted) && Implies(old(history), Lits(c)))
                || (!rup && exists l :: Survives(old(memory), old(trail), c, l))
      ensures !ok ==> rup == old(rup) && trusted == old(trusted) && !inconsistent
      ensures !ok ==> trail == old(trail) && SameClauses(old(memory), memory) && history == old(history)
      ensures !ok ==> forall l :: !Survives(old(memory), old(trail), c, l)
      ensures !ok ==> !TrueOrTautological(Lits(c), old(trail))
      ensures !ok ==> forall steps :: !Refutes(LiveFormula(old(memory)), Lits(old(trail)) + Negations(Lits(c)), steps)
      ensures old(trusted) && !trusted ==> forall l :: !Trusted(old(memory), old(trail), c, l)
    {
      hide Valid, Survives, Trusted, Refutes, Implies, TrueOrTautological, SameClauses, LiveFormula, Negations;
      ok := AddDerivedClause(id, c);
      if ok {
        ok := DeleteAdded(id, c);
      }
    }

    method DeleteAdded(id: nat, c: Clause) returns (ok: bool)
      requires Valid() && 0 !in c && (inconsistent || (id in added && added[id] == Lits(c)))
      modifies this
      ensures Valid() && originals == old(originals) && inconsistent == old(inconsistent) && trusted == old(trusted)
      ensures rup == old(rup) && ok && added == if inconsistent then old(added) else old(added) - {id}
    {
      hide Registry, TrueOrTautological, OthersStay, WasAdded, StorageOk;
      ok := DeleteClause(id, c);
    }
  }

  /** A proof whose derived clauses were all accepted by propagation refutes what was given. */
  lemma InconsistentIsUnsatisfiable(checker: Checker)
    requires checker.Valid() && checker.rup && checker.inconsistent
    ensures !Satisfiable(checker.originals)
  {
    forall m ensures !Models(m, checker.originals) {
      assert !(Models(m, checker.history) && Extends(m, {}));
      if !Models(m, checker.history) {
        var s :| s in checker.history && !Holds(m, s);
        assert Implies(checker.originals, s);
      }
    }
  }

  /** So does a proof whose blocked clauses were trusted, if all original clauses came before them. */
  lemma TrustedIsUnsatisfiable(checker: Checker)
    requires checker.Valid() && checker.trusted && checker.inconsistent
    ensures !Satisfiable(checker.originals)
  {
    hide WatchInvariant, Propagated, Bounded, GoodTrail, ValsMatch, StorageOk, Registry;
    forall m ensures !Models(m, checker.history) {
      assert Extends(m, {});
    }
  }

  /** While nothing was accepted as blocked, every stored clause and every unit at the root is
      implied by the given clauses. */
  lemma StoredIsImplied(checker: Checker)
    requires checker.Valid() && checker.rup && !checker.inconsistent
    ensures forall r :: r in checker.memory ==> Implies(checker.originals, Lits(checker.memory[r].lits))
    ensures forall u :: u in checker.trail ==> Implies(checker.originals, {u})
  {
    hide WatchInvariant, Propagated, Bounded, GoodTrail, ValsMatch, StorageOk, Registry;
    forall m | Models(m, checker.originals) ensures Models(m, checker.history) {
      forall s | s in checker.history ensures Holds(m, s) {
        assert Implies(checker.originals, s);
      }
    }
    forall r | r in checker.memory ensures Implies(checker.originals, Lits(checker.memory[r].lits)) {
      assert MemoryImplied(checker.history, checker.memory);
    }
    forall u, m | u in checker.trail && Models(m, checker.originals) ensures Holds(m, {u}) {
      assert Models(m, checker.history) && Extends(m, {});
      assert u in Lits(checker.trail) && u in {u};
    }
  }

  /** The test for blocked clauses is not sound: from one satisfiable clause the checker accepts
      a derivation that makes it inconsistent, because the unit is not a stored clause. */
  method FalsifiedSurvivorRun() returns (checker: Checker, ok: bool)
    ensures fresh(checker) && ok && checker.Valid()
    ensures checker.originals == {{-1}} && Satisfiable(checker.originals) && checker.inconsistent
  {
    hide Survives, StorageOk, Registry, Refutes;
    checker := new Checker([1, 1, 1, 1]);
    checker.AddOriginalClause(1, [-1]);
    UnitIsSatisfiable(checker);
    assert Survives(checker.memory, checker.trail, [1], 1);
    ok := checker.AddDerivedClause(2, [1]);
    BothUnits(checker);
  }

  lemma UnitIsSatisfiable(checker: Checker)
    requires checker.Valid() && checker.rup && checker.originals == {Lits([-1])}
    requires StoresAtMost(map[], checker.memory, Lits([-1]))
    ensures !checker.inconsistent && checker.originals == {{-1}} && Satisfiable(checker.originals)
    ensures Survives(checker.memory, checker.trail, [1], 1)
  {
    hide WatchInvariant, Propagated, Bounded, GoodTrail, ValsMatch, StorageOk, Registry, StoresAtMost;
    assert Lits([-1]) == {-1};
    assert Models({}, {{-1}}) by {
      assert True({}, -1) && Holds({}, {-1});
    }
    if checker.inconsistent {
      InconsistentIsUnsatisfiable(checker);
    } else {
      checker.RootMemory();
      NothingIsStored(checker.memory, {-1});
    }
  }

  lemma BothUnits(checker: Checker)
    requires checker.Valid() && 1 in checker.added && checker.added[1] == Lits([-1]) && 2 in checker.added
    requires checker.added[2] == Lits([1])
    ensures checker.inconsistent
  {
    hide WatchInvariant, Propagated, Bounded, ValsMatch, StorageOk, Registry;
    assert Lits([-1]) == {-1} && Lits([1]) == {1};
    if !checker.inconsistent {
      checker.RootMemory();
      checker.RootMeans();
      ShortIsTrue(checker.memory, checker.trail, checker.nonces, checker.added, checker.refOf, 1, -1);
      ShortIsTrue(checker.memory, checker.trail, checker.nonces, checker.added, checker.refOf, 2, 1);
    }
  }
}
