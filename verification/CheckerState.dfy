/** The state of the proof checker as values: what its parts mean and how steps keep them. */
module CheckerState {
  import opened Cnf
  import opened Lists
  import opened Propagation
  import opened HashTable
  import opened CheckerClauses

  function ValIn(vals: map<int, int>, lit: int): int {
    if lit in vals then vals[lit] else 0
  }

  /** The value array says exactly what is on the trail. */
  ghost predicate ValsMatch(vals: map<int, int>, trail: seq<int>) {
    forall l :: ValIn(vals, l) == SignIn(Lits(trail), l)
  }

  lemma ValMeans(vals: map<int, int>, trail: seq<int>, l: int)
    requires ValsMatch(vals, trail) && GoodTrail(trail)
    ensures (ValIn(vals, l) > 0 <==> l in trail) && (ValIn(vals, l) < 0 <==> -l in trail)
    ensures ValIn(vals, l) == 0 <==> l !in trail && -l !in trail
  {
    assert ValIn(vals, l) == SignIn(Lits(trail), l);
  }

  lemma AssignMatches(vals: map<int, int>, trail: seq<int>, lit: int)
    requires ValsMatch(vals, trail) && GoodTrail(trail) && ValIn(vals, lit) == 0 && lit != 0
    ensures GoodTrail(trail + [lit]) && ValsMatch(vals[lit := 1][-lit := -1], trail + [lit])
  {
    ValMeans(vals, trail, lit);
    forall l ensures ValIn(vals[lit := 1][-lit := -1], l)
                  == SignIn(Lits(trail + [lit]), l) {
      ValMeans(vals, trail, l);
    }
  }

  lemma BoundedAssign(mem: Memory, trail: seq<int>, u: int, size: nat)
    requires Bounded(mem, trail, size) && Abs(u) < size
    ensures Bounded(mem, trail + [u], size)
  {
  }

  lemma BoundedClause(mem: Memory, trail: seq<int>, r: int, x: int, size: nat)
    requires Bounded(mem, trail, size) && r in mem && x in mem[r].lits
    ensures Abs(x) < size
  {
  }

  lemma UnassignMatches(vals: map<int, int>, trail: seq<int>)
    requires ValsMatch(vals, trail) && GoodTrail(trail) && trail != []
    ensures var n := |trail| - 1;
            GoodTrail(trail[..n]) && ValsMatch(vals[trail[n] := 0][-trail[n] := 0], trail[..n])
  {
    var n := |trail| - 1;
    var lit := trail[n];
    assert trail == trail[..n] + [lit] && lit in trail;
    assert forall x :: x in trail[..n] ==> x in trail;
    assert lit !in trail[..n] && -lit !in trail[..n];
    forall l ensures ValIn(vals[lit := 0][-lit := 0], l)
                  == SignIn(Lits(trail[..n]), l) {
      ValMeans(vals, trail, l);
    }
  }

  ghost predicate FormulaImplied(f: Formula, g: Formula) {
    forall s :: s in g ==> Implies(f, s)
  }

  /** Live clauses are in the table, all others in memory are on the garbage list. */
  ghost predicate StorageOk(mem: Memory, buckets: Buckets, numClauses: nat, garbage: seq<int>, numGarbage: nat,
                            nextRef: int) {
    && HoldsRefs(mem, buckets, LiveRefs(mem)) && numClauses == |LiveRefs(mem)|
    && (|buckets| > 0 ==> IsPowerOfTwo(|buckets|))
    && NoDuplicates(garbage) && Members(garbage) == mem.Keys - LiveRefs(mem) && numGarbage == |garbage|
    && forall r :: r in mem ==> r < nextRef
  }

  /** A clause that was added and not deleted is true under the root trail, or it is stored
      under its hash value; different clauses are stored in different places. */
  ghost predicate Registry(mem: Memory, trail: seq<int>, nonces: seq<nat>, added: map<nat, set<int>>, refOf: map<nat,
                           int>) {
    && |nonces| == 4
    && (forall id :: id in refOf ==>
         && id in added && Live(mem, refOf[id])
         && mem[refOf[id]].hash == HashOf(nonces, id) && Lits(mem[refOf[id]].lits) == added[id])
    && (forall i, j :: i in refOf && j in refOf && i != j ==> refOf[i] != refOf[j])
    && (forall id :: id in added && id !in refOf ==> TrueOrTautological(added[id], trail))
    && AllOwned(mem, trail, refOf)
  }

  /** Every stored clause was stored for an identifier, unless it is true under the root trail. */
  ghost predicate AllOwned(mem: Memory, trail: seq<int>, refOf: map<nat, int>) {
    forall r :: Live(mem, r) ==> Owned(refOf, r) || TrueOrTautological(Lits(mem[r].lits), trail)
  }

  ghost predicate Owned(refOf: map<nat, int>, r: int) {
    exists id :: OwnedBy(refOf, id, r)
  }

  ghost predicate OwnedBy(refOf: map<nat, int>, id: nat, d: int) {
    id in refOf && refOf[id] == d
  }

  lemma StorageMeans(mem: Memory, buckets: Buckets, numClauses: nat, garbage: seq<int>, numGarbage: nat, nextRef: int)
    requires StorageOk(mem, buckets, numClauses, garbage, numGarbage, nextRef)
    ensures HoldsRefs(mem, buckets, LiveRefs(mem)) && numClauses == |LiveRefs(mem)| && nextRef !in mem
    ensures |buckets| > 0 ==> IsPowerOfTwo(|buckets|)
  {
  }

  ghost predicate SatisfiedBy(c: Clause, trail: seq<int>) {
    exists x :: x in c && x in trail
  }

  ghost predicate Unsatisfied(mem: Memory, r: int, trail: seq<int>) {
    r in mem && !SatisfiedBy(mem[r].lits, trail)
  }

  /** Only clauses that are satisfied by the trail became garbage. */
  ghost predicate SatisfiedBecameGarbage(mem: Memory, mem': Memory, trail: seq<int>) {
    && mem.Keys == mem'.Keys
    && forall r :: r in mem ==>
         mem'[r] == mem[r] || (SatisfiedBy(mem[r].lits, trail) && mem'[r] == mem[r].(size := 0))
  }

  lemma AllUnsatisfied(mem: Memory, buckets: Buckets, trail: seq<int>)
    requires HoldsRefs(mem, buckets, LiveRefs(mem))
    requires forall b, k :: 0 <= b < |buckets| && 0 <= k < |buckets[b]| ==> Unsatisfied(mem, buckets[b][k], trail)
    ensures forall r :: Live(mem, r) ==> !SatisfiedBy(mem[r].lits, trail)
  {
    forall r | Live(mem, r) ensures !SatisfiedBy(mem[r].lits, trail) {
      assert r in LiveRefs(mem);
      var b := BucketOf(mem, |buckets|, r);
      var k :| 0 <= k < |buckets[b]| && buckets[b][k] == r;
      assert Unsatisfied(mem, buckets[b][k], trail);
    }
  }

  lemma NothingBecameGarbage(mem: Memory, trail: seq<int>)
    ensures SatisfiedBecameGarbage(mem, mem, trail)
  {
  }

  lemma BecameGarbageTransitive(a: Memory, b: Memory, c: Memory, trail: seq<int>)
    requires SatisfiedBecameGarbage(a, b, trail) && SatisfiedBecameGarbage(b, c, trail)
    ensures SatisfiedBecameGarbage(a, c, trail)
    ensures forall r :: Unsatisfied(b, r, trail) ==> Unsatisfied(c, r, trail)
  {
  }

  lemma StorageRemoved(mem: Memory, buckets: Buckets, numClauses: nat, garbage: seq<int>, numGarbage: nat, nextRef: int,
                       b: nat, k: nat)
    requires StorageOk(mem, buckets, numClauses, garbage, numGarbage, nextRef) && b < |buckets| && k < |buckets[b]|
    ensures var r := buckets[b][k];
            && r in mem && mem[r].size != 0 && numClauses > 0
            && StorageOk(mem[r := mem[r].(size := 0)], buckets[b := buckets[b][..k] + buckets[b][k + 1..]],
                         numClauses - 1, [r] + garbage, numGarbage + 1, nextRef)
  {
    var r := buckets[b][k];
    InTable(mem, buckets, b, k);
    assert r !in Members(garbage) by { assert r in LiveRefs(mem); }
    NewMember(garbage, r);
    hide HoldsRefs, NoDuplicates, Members;
    RemoveHolds(mem, buckets, LiveRefs(mem), b, k);
    LiveRefsRemoved(mem, r);
    HoldsSameHashes(mem, mem[r := mem[r].(size := 0)], buckets[b := buckets[b][..k] + buckets[b][k + 1..]],
                    LiveRefs(mem) - {r});
  }

  lemma NewMember(s: seq<int>, r: int)
    requires NoDuplicates(s) && r !in Members(s)
    ensures NoDuplicates([r] + s) && Members([r] + s) == Members(s) + {r}
  {
    assert r !in s;
  }

  lemma LiveRefsRemoved(mem: Memory, r: int)
    requires r in mem && mem[r].size != 0
    ensures LiveRefs(mem[r := mem[r].(size := 0)]) == LiveRefs(mem) - {r}
    ensures |LiveRefs(mem)| > 0 && |LiveRefs(mem[r := mem[r].(size := 0)])| == |LiveRefs(mem)| - 1
  {
    assert r in LiveRefs(mem);
    assert LiveRefs(mem[r := mem[r].(size := 0)]) == LiveRefs(mem) - {r};
  }

  lemma InTable(mem: Memory, buckets: Buckets, b: nat, k: nat)
    requires HoldsRefs(mem, buckets, LiveRefs(mem)) && b < |buckets| && k < |buckets[b]|
    ensures buckets[b][k] in mem && mem[buckets[b][k]].size != 0
  {
    assert GoodBucket(mem, |buckets|, b, buckets[b], LiveRefs(mem)) && buckets[b][k] in buckets[b];
  }

  /** Marking a clause as garbage leaves the watches as they are. */
  lemma GarbageKeeps(f: Formula, mem: Memory, ws: WatchLists, trail: seq<int>, size: nat, r: int)
    requires r in mem && WatchInvariant(mem, ws) && UsedImplied(f, mem) && Bounded(mem, trail, size)
    requires Propagated(mem, ws, trail, |trail|)
    ensures var mem' := mem[r := mem[r].(size := 0)];
            && WatchInvariant(mem', ws) && UsedImplied(f, mem') && Bounded(mem', trail, size)
            && Propagated(mem', ws, trail, |trail|)
  {
    var mem' := mem[r := mem[r].(size := 0)];
    assert GoodClause(mem[r]);
    forall l ensures GoodList(mem', l, ListOf(ws, l)) {
      assert GoodList(mem, l, ListOf(ws, l));
      forall w | GoodWatch(mem, l, w) ensures GoodWatch(mem', l, w) { }
    }
    forall q | Live(mem', q) ensures Live(mem, q) { }
    forall l, w | Settled(mem, trail, l, w) ensures Settled(mem', trail, l, w) { }
    forall x | x in trail[..|trail|] ensures SettledList(mem', trail, -x, ListOf(ws, -x)) {
      assert SettledList(mem, trail, -x, ListOf(ws, -x));
    }
  }

  lemma SatisfiedMeans(vals: map<int, int>, trail: seq<int>, c: Clause, satisfied: bool)
    requires ValsMatch(vals, trail) && GoodTrail(trail)
    requires satisfied <==> exists x :: x in c && ValIn(vals, x) > 0
    ensures satisfied == SatisfiedBy(c, trail)
  {
    forall x ensures (ValIn(vals, x) > 0) == (x in trail) {
      ValMeans(vals, trail, x);
    }
  }

  lemma OneMoreGarbage(mem0: Memory, mem: Memory, mem': Memory, trail: seq<int>, r: int)
    requires SatisfiedBecameGarbage(mem0, mem, trail) && r in mem && SatisfiedBy(mem[r].lits, trail)
    requires mem' == mem[r := mem[r].(size := 0)]
    ensures SatisfiedBecameGarbage(mem0, mem', trail)
  {
  }

  lemma WatchesInMemory(mem: Memory, ws: WatchLists, l: int)
    requires WatchInvariant(mem, ws)
    ensures forall w :: w in ListOf(ws, l) ==> w.clause in mem
  {
    assert GoodList(mem, l, ListOf(ws, l));
    assert forall w :: w in ListOf(ws, l) ==> GoodWatch(mem, l, w);
  }

  lemma NoWatchesOutside(mem: Memory, ws: WatchLists, trail: seq<int>, size: nat, l: int)
    requires WatchInvariant(mem, ws) && Bounded(mem, trail, size)
    ensures !(Abs(l) < size && l != 0) ==> ListOf(ws, l) == [] && LiveWatches(mem, ListOf(ws, l)) == []
  {
    assert GoodList(mem, l, ListOf(ws, l));
    if ListOf(ws, l) != [] {
      var w := ListOf(ws, l)[0];
      assert w in ListOf(ws, l);
      assert GoodWatch(mem, l, w) && GoodClause(mem[w.clause]);
    }
  }

  lemma StorageFreed(mem: Memory, buckets: Buckets, numClauses: nat, garbage: seq<int>, numGarbage: nat, nextRef: int)
    requires StorageOk(mem, buckets, numClauses, garbage, numGarbage, nextRef)
    ensures StorageOk(WithoutGarbage(mem), buckets, numClauses, [], 0, nextRef)
  {
    assert LiveRefs(WithoutGarbage(mem)) == LiveRefs(mem);
    HoldsSameHashes(mem, WithoutGarbage(mem), buckets, LiveRefs(mem));
  }

  lemma FreedKeeps(f: Formula, mem: Memory, trail: seq<int>, size: nat)
    requires UsedImplied(f, mem) && Bounded(mem, trail, size)
    ensures UsedImplied(f, WithoutGarbage(mem)) && Bounded(WithoutGarbage(mem), trail, size)
  {
    forall r | r in WithoutGarbage(mem) ensures r in mem && WithoutGarbage(mem)[r] == mem[r] { }
  }

  lemma CollectedMeans(mem0: Memory, mem: Memory, trail: seq<int>)
    requires SatisfiedBecameGarbage(mem0, mem, trail)
    ensures var mem' := WithoutGarbage(mem);
            && (forall r :: r in mem' ==> r in mem0 && mem'[r] == mem0[r] && Live(mem', r))
            && (forall r :: Live(mem0, r) && !SatisfiedBy(mem0[r].lits, trail) ==> r in mem')
  {
  }

  /** Clauses that were collected are satisfied by the root trail. */
  lemma RegistryCollected(mem0: Memory, mem: Memory, trail: seq<int>, nonces: seq<nat>,
                          added: map<nat, set<int>>, refOf: map<nat, int>)
    requires Registry(mem0, trail, nonces, added, refOf) && SatisfiedBecameGarbage(mem0, mem, trail)
    ensures var mem' := WithoutGarbage(mem);
            var refOf' := map id | id in refOf && refOf[id] in mem' :: refOf[id];
            Registry(mem', trail, nonces, added, refOf')
  {
    hide HashOf, AllOwned;
    var mem' := WithoutGarbage(mem);
    var refOf' := map id | id in refOf && refOf[id] in mem' :: refOf[id];
    forall id | id in added && id !in refOf' ensures TrueOrTautological(added[id], trail) {
      if id in refOf {
        var r := refOf[id];
        assert Live(mem0, r) && mem[r].size == 0 && SatisfiedBy(mem0[r].lits, trail);
        var x :| x in mem0[r].lits && x in trail;
        assert x in Lits(mem0[r].lits);
      }
    }
    OwnedCollected(mem0, mem, trail, refOf);
  }

  lemma OwnedCollected(mem0: Memory, mem: Memory, trail: seq<int>, refOf: map<nat, int>)
    requires AllOwned(mem0, trail, refOf) && SatisfiedBecameGarbage(mem0, mem, trail)
    ensures var mem' := WithoutGarbage(mem);
            AllOwned(mem', trail, map id | id in refOf && refOf[id] in mem' :: refOf[id])
  {
    hide SatisfiedBy, TrueOrTautological;
    var mem' := WithoutGarbage(mem);
    var refOf' := map id | id in refOf && refOf[id] in mem' :: refOf[id];
    forall r | Live(mem', r) ensures Owned(refOf', r) || TrueOrTautological(Lits(mem'[r].lits), trail) {
      assert Live(mem0, r) && mem0[r] == mem'[r];
      if id :| OwnedBy(refOf, id, r) {
        assert OwnedBy(refOf', id, r);
      }
    }
  }

  lemma DistinctNonZero(c: Clause)
    requires Distinct(c)
    ensures 0 !in c
  {
  }

  lemma ValsOf(vals: map<int, int>, trail: seq<int>, c: Clause)
    requires ValsMatch(vals, trail) && GoodTrail(trail) && forall x :: x in c ==> x !in trail
    ensures forall x :: x in c ==> ValIn(vals, x) <= 0 && (ValIn(vals, x) < 0 <==> -x in trail)
  {
    forall x | x in c ensures ValIn(vals, x) <= 0 && (ValIn(vals, x) < 0 <==> -x in trail) {
      ValMeans(vals, trail, x);
    }
  }

  lemma NothingPropagated(mem: Memory, ws: WatchLists, T: seq<int>)
    ensures Propagated(mem, ws, T, 0)
  {
  }

  lemma StorageSame(mem: Memory, mem': Memory, buckets: Buckets, numClauses: nat, garbage: seq<int>, numGarbage: nat,
                    nextRef: int)
    requires StorageOk(mem, buckets, numClauses, garbage, numGarbage, nextRef) && SameClauses(mem, mem')
    ensures StorageOk(mem', buckets, numClauses, garbage, numGarbage, nextRef)
  {
    assert forall r :: r in mem ==> mem[r].size == mem'[r].size;
    forall r ensures r in LiveRefs(mem') <==> r in LiveRefs(mem) { }
    assert LiveRefs(mem') == LiveRefs(mem);
    HoldsSameHashes(mem, mem', buckets, LiveRefs(mem));
  }

  lemma RegistryNonces(mem: Memory, trail: seq<int>, nonces: seq<nat>, added: map<nat, set<int>>, refOf: map<nat, int>)
    requires Registry(mem, trail, nonces, added, refOf)
    ensures |nonces| == 4
  {
  }

  /** Reordering literals and extending the trail keep the registry. */
  lemma RegistrySame(mem: Memory, mem': Memory, trail: seq<int>, trail': seq<int>, nonces: seq<nat>,
                     added: map<nat, set<int>>, refOf: map<nat, int>)
    requires Registry(mem, trail, nonces, added, refOf) && SameClauses(mem, mem') && trail <= trail'
    ensures Registry(mem', trail', nonces, added, refOf)
  {
    hide HashOf;
    forall r | r in mem ensures Lits(mem[r].lits) == Lits(mem'[r].lits) {
      SameMultisetSameLits(mem[r].lits, mem'[r].lits);
    }
    forall s | TrueOrTautological(s, trail) ensures TrueOrTautological(s, trail') { }
  }

  lemma RegistryTrue(mem: Memory, trail: seq<int>, nonces: seq<nat>, added: map<nat, set<int>>, refOf: map<nat, int>,
                     id: nat, s: set<int>, u: int)
    requires Registry(mem, trail, nonces, added, refOf) && id !in added && u in s && u in trail
    ensures Registry(mem, trail, nonces, added[id := s], refOf)
  {
    hide HashOf;
  }

  lemma RegistryNew(mem: Memory, trail: seq<int>, nonces: seq<nat>, added: map<nat, set<int>>, refOf: map<nat, int>,
                    r: int)
    requires Registry(mem, trail, nonces, added, refOf)
    ensures r !in mem ==> forall id :: id in refOf ==> refOf[id] != r
  {
  }

  lemma RegistryStored(mem: Memory, mem': Memory, trail: seq<int>, nonces: seq<nat>, added: map<nat, set<int>>,
                       refOf: map<nat, int>, id: nat, s: set<int>, r: int)
    requires Registry(mem, trail, nonces, added, refOf) && id !in added && r !in mem && r in mem'
    requires mem' == mem[r := mem'[r]]
    requires mem'[r].size != 0 && mem'[r].hash == HashOf(nonces, id) && Lits(mem'[r].lits) == s
    ensures Registry(mem', trail, nonces, added[id := s], refOf[id := r])
  {
    hide HashOf, TrueOrTautological;
    var refOf' := refOf[id := r];
    forall q | Live(mem', q) ensures Owned(refOf', q) || TrueOrTautological(Lits(mem'[q].lits), trail) {
      if q == r {
        assert OwnedBy(refOf', id, q);
      } else if i :| OwnedBy(refOf, i, q) {
        assert OwnedBy(refOf', i, q);
      }
    }
  }

  lemma StorageInserted(mem: Memory, before: Buckets, buckets: Buckets, numClauses: nat, garbage: seq<int>,
                        numGarbage: nat, r: int, c: CheckerClause, h: nat)
    requires StorageOk(mem, before, numClauses, garbage, numGarbage, r)
    requires HoldsRefs(mem, buckets, LiveRefs(mem)) && |buckets| > 0 && c.size != 0
    requires h == Reduce(c.hash, |buckets|, 32) && IsPowerOfTwo(|buckets|)
    ensures StorageOk(mem[r := c], buckets[h := [r] + buckets[h]], numClauses + 1, garbage, numGarbage, r + 1)
  {
    hide HoldsRefs, NoDuplicates, Reduce, IsPowerOfTwo;
    LiveRefsNew(mem, r, c);
    HoldsSameHashes(mem, mem[r := c], buckets, LiveRefs(mem));
    BucketIs(mem[r := c], |buckets|, r);
    InsertHolds(mem[r := c], buckets, LiveRefs(mem), r, h);
  }

  lemma BoundedLarger(mem: Memory, trail: seq<int>, size: nat, size': nat)
    requires Bounded(mem, trail, size) && size <= size'
    ensures Bounded(mem, trail, size')
  {
  }

  lemma NonEmptyTable(mem: Memory, buckets: Buckets, refs: set<int>)
    requires HoldsRefs(mem, buckets, refs) && |refs| > 0
    ensures |buckets| > 0
  {
    assert refs != {};
    assert forall r :: r in refs ==> |buckets| > 0;
  }

  lemma HeldMeans(c: Clause, held: set<int>, vals: map<int, int>)
    requires held == set x | x in c && ValIn(vals, x) != 0
    ensures forall i :: 0 <= i < |c| ==> (c[i] in held <==> ValIn(vals, c[i]) != 0)
    ensures forall x :: x in c ==> (x in held <==> ValIn(vals, x) != 0)
  {
  }

  lemma NewClauseImplied(f: Formula, mem: Memory, trail: seq<int>, r: int, c: CheckerClause, size: nat)
    requires UsedImplied(f, mem) && Bounded(mem, trail, size) && Implies(f, Lits(c.lits))
    requires forall x :: x in c.lits ==> Abs(x) < size
    ensures UsedImplied(f, mem[r := c]) && Bounded(mem[r := c], trail, size)
  {
  }

  lemma LiveRefsNew(mem: Memory, r: int, c: CheckerClause)
    requires r !in mem && c.size != 0
    ensures LiveRefs(mem[r := c]) == LiveRefs(mem) + {r} && r !in LiveRefs(mem)
    ensures |LiveRefs(mem[r := c])| == |LiveRefs(mem)| + 1
    ensures mem[r := c].Keys - LiveRefs(mem[r := c]) == mem.Keys - LiveRefs(mem)
  {
    assert LiveRefs(mem[r := c]) == LiveRefs(mem) + {r};
  }

  lemma NegationsStep(c: Clause, i: nat)
    requires i < |c|
    ensures Negations(Lits(c[..i + 1])) == Negations(Lits(c[..i])) + {-c[i]}
  {
    var d := c[..i + 1];
    assert d == c[..i] + [c[i]];
    forall y ensures y in Negations(Lits(d)) <==> y in Negations(Lits(c[..i])) || y == -c[i] {
      InNegations(Lits(d), y);
      InNegations(Lits(c[..i]), y);
    }
  }

  lemma DistinctStep(c: Clause, i: nat)
    requires Distinct(c) && i < |c|
    ensures c[i] !in c[..i] && c[i] != 0 && c[..i + 1] == c[..i] + [c[i]]
    ensures forall x :: x in c ==> -x !in c
  {
    NotInPrefix(c, i);
  }

  lemma MoreAssumptions(f: Formula, base: set<int>, more: set<int>, trail: seq<int>)
    requires TrailImplied(f, base, trail) && base <= more
    ensures TrailImplied(f, more, trail)
  {
    forall m | Models(m, f) && Extends(m, more) ensures Extends(m, Lits(trail)) {
      assert Extends(m, base);
    }
  }

  lemma AssumeImplied(f: Formula, base: set<int>, trail: seq<int>, u: int)
    requires TrailImplied(f, base, trail) && u in base
    ensures TrailImplied(f, base, trail + [u])
  {
    assert Lits(trail + [u]) == Lits(trail) + {u};
  }

  lemma RefutedIsImplied(f: Formula, c: Clause)
    requires Contradicts(f, Negations(Lits(c))) && Distinct(c)
    ensures Implies(f, Lits(c))
  {
    forall m | Models(m, f) ensures Holds(m, Lits(c)) {
      assert !Extends(m, Negations(Lits(c)));
      var y :| y in Negations(Lits(c)) && !True(m, y);
      assert -y in Lits(c) && True(m, -y);
    }
  }

  lemma PrefixLits(s: seq<int>, t: seq<int>)
    requires s <= t
    ensures Lits(s) <= Lits(t)
  {
  }

  lemma PrefixBounded(mem: Memory, trail: seq<int>, n: nat, size: nat)
    requires Bounded(mem, trail, size) && n <= |trail|
    ensures Bounded(mem, trail[..n], size)
  {
  }

  lemma NothingRefutes(f: Formula, known: set<int>, trail: seq<int>)
    requires Quiescent(f, Lits(trail)) && known <= Lits(trail) && GoodTrail(trail)
    ensures forall steps :: !Refutes(f, known, steps)
  {
    forall steps ensures !Refutes(f, known, steps) {
      QuiescentIsNotRefuted(f, known, Lits(trail), steps);
    }
  }

  lemma BoundedTrail(mem: Memory, trail: seq<int>, size: nat)
    requires Bounded(mem, trail, size) && GoodTrail(trail)
    ensures |trail| <= size
  {
    TrailFits(trail, size);
  }

  lemma NothingVisited(mem: Memory, T: seq<int>, l: int, list: seq<Watch>)
    ensures SettledList(mem, T, l, list[..0])
  {
  }

  lemma OneMorePropagated(mem: Memory, ws: WatchLists, T: seq<int>, n: nat)
    requires n < |T| && Propagated(mem, ws, T, n) && SettledList(mem, T, -T[n], ListOf(ws, -T[n]))
    ensures Propagated(mem, ws, T, n + 1)
  {
    assert T[..n + 1] == T[..n] + [T[n]];
  }

  lemma SameClausesReflexive(mem: Memory)
    ensures SameClauses(mem, mem)
  {
  }

  lemma LongWatch(mem: Memory, ws: WatchLists, f: Formula, r: int)
    requires WatchInvariant(mem, ws) && UsedImplied(f, mem) && Live(mem, r)
    ensures Distinct(mem[r].lits) && Implies(f, Lits(mem[r].lits)) && 0 !in mem[r].lits
  {
    assert GoodClause(mem[r]);
  }

  lemma SizeOfWatch(mem: Memory, ws: WatchLists, l: int, j: nat)
    requires WatchInvariant(mem, ws) && j < |ListOf(ws, l)| && Live(mem, ListOf(ws, l)[j].clause)
    ensures mem[ListOf(ws, l)[j].clause].size == ListOf(ws, l)[j].size
    ensures ListOf(ws, l)[j].size == |mem[ListOf(ws, l)[j].clause].lits|
    ensures forall k :: 2 <= k < |mem[ListOf(ws, l)[j].clause].lits| && l == mem[ListOf(ws, l)[j].clause].lits[1]
              ==> mem[ListOf(ws, l)[j].clause].lits[k] != l
  {
    assert GoodList(mem, l, ListOf(ws, l)) && GoodWatch(mem, l,
                                                        ListOf(ws, l)[j]) && GoodClause(mem[ListOf(ws, l)[j].clause]);
  }

  lemma SameClausesTransitive(a: Memory, b: Memory, c: Memory)
    requires SameClauses(a, b) && SameClauses(b, c)
    ensures SameClauses(a, c)
  {
  }

  lemma BlitSettles(mem: Memory, T: seq<int>, l: int, w: Watch)
    requires w.blit in T
    ensures Settled(mem, T, l, w)
  {
  }

  lemma SwapPrefix(mem: Memory, mem': Memory, ws: WatchLists, l: int, j: nat, T: seq<int>)
    requires WatchInvariant(mem, ws) && j < |ListOf(ws, l)| && Rearranged(mem, mem', ListOf(ws, l)[j].clause)
    requires SettledList(mem, T, l, ListOf(ws, l)[..j])
    requires forall a, list :: SettledList(mem, T, a, list) && GoodList(mem, a, list) ==> SettledList(mem', T, a, list)
    ensures SettledList(mem', T, l, ListOf(ws, l)[..j])
  {
    assert GoodList(mem, l, ListOf(ws, l));
    assert GoodList(mem, l, ListOf(ws, l)[..j]);
  }

  lemma OtherIsFirst(mem: Memory, T: seq<int>, l: int, w: Watch)
    requires w.clause in mem && |mem[w.clause].lits| >= 2 && mem[w.clause].lits[0] != l && mem[w.clause].lits[0] in T
    ensures Settled(mem, T, l, w)
  {
  }

  lemma BinaryWatch(mem: Memory, ws: WatchLists, l: int, j: nat)
    requires WatchInvariant(mem, ws) && j < |ListOf(ws, l)| && ListOf(ws, l)[j].size == 2
    ensures var w := ListOf(ws, l)[j];
            && w.clause in mem && Distinct(mem[w.clause].lits) && Used(mem[w.clause])
            && forall x :: x in mem[w.clause].lits <==> x == l || x == w.blit
  {
    var w := ListOf(ws, l)[j];
    assert GoodList(mem, l, ListOf(ws, l)) && GoodWatch(mem, l, w) && GoodClause(mem[w.clause]);
  }

  // ---------------------------------------------------------------- the history

  lemma HistoryGrows(f: Formula, s: set<int>, mem: Memory, trail: seq<int>)
    requires TrailImplied(f, {}, trail) && UsedImplied(f, mem)
    ensures TrailImplied(f + {s}, {}, trail) && UsedImplied(f + {s}, mem) && Implies(f + {s}, s)
  {
    forall m | Models(m, f + {s}) ensures Models(m, f) && Holds(m, s) {
      ModelsUnion(m, f, {s});
      assert s in f + {s};
    }
  }

  ghost predicate MemoryImplied(f: Formula, mem: Memory) {
    forall r :: r in mem ==> Implies(f, Lits(mem[r].lits))
  }

  lemma MemoryGrows(f: Formula, mem: Memory, mem': Memory, s: set<int>)
    requires MemoryImplied(f, mem) && StoresAtMost(mem, mem', s) && Implies(f, s)
    ensures MemoryImplied(f, mem')
  {
  }

  lemma MemorySame(f: Formula, mem: Memory, mem': Memory)
    requires SameClauses(mem, mem')
    ensures MemoryImplied(f, mem) ==> MemoryImplied(f, mem')
  {
    forall r | r in mem' ensures Lits(mem[r].lits) == Lits(mem'[r].lits) {
      SameMultisetSameLits(mem[r].lits, mem'[r].lits);
    }
  }

  lemma MemoryMarked(f: Formula, mem: Memory, r: int)
    requires r in mem
    ensures MemoryImplied(f, mem) ==> MemoryImplied(f, mem[r := mem[r].(size := 0)])
  {
  }

  lemma MemoryStays(f: Formula, s: set<int>, mem: Memory)
    requires MemoryImplied(f, mem)
    ensures MemoryImplied(f + {s}, mem)
  {
    forall m | Models(m, f + {s}) ensures Models(m, f) {
      ModelsUnion(m, f, {s});
    }
  }

  /** If the formula has a model, then so has what the checker knows. */
  ghost predicate KeepsSatisfiable(f: Formula, g: Formula) {
    Satisfiable(f) ==> Satisfiable(g)
  }

  lemma OriginalKeeps(originals: Formula, history: Formula, s: set<int>)
    requires FormulaImplied(originals, history)
    ensures KeepsSatisfiable(originals + {s}, history + {s})
  {
    OriginalImplied(originals, history, s);
    if m :| Models(m, originals + {s}) {
      forall t | t in history + {s} ensures Holds(m, t) {
        assert Implies(originals + {s}, t);
      }
      assert Models(m, history + {s});
    }
  }

  lemma DerivedKeeps(originals: Formula, history: Formula, s: set<int>)
    requires Implies(history, s) && KeepsSatisfiable(originals, history)
    ensures KeepsSatisfiable(originals, history + {s})
  {
    if m :| Models(m, history) {
      assert Holds(m, s);
      assert Models(m, history + {s});
    }
  }

  lemma OriginalImplied(originals: Formula, history: Formula, s: set<int>)
    ensures FormulaImplied(originals, history) ==> FormulaImplied(originals + {s}, history + {s})
  {
    if FormulaImplied(originals, history) {
      forall t | t in history + {s} ensures Implies(originals + {s}, t) {
        forall m | Models(m, originals + {s}) ensures Holds(m, t) {
          ModelsUnion(m, originals, {s});
          assert s in originals + {s};
          assert t in history ==> Implies(originals, t);
        }
      }
    }
  }

  lemma DerivedImplied(originals: Formula, history: Formula, s: set<int>)
    requires Implies(history, s)
    ensures FormulaImplied(originals, history) ==> FormulaImplied(originals, history + {s})
  {
    if FormulaImplied(originals, history) {
      forall m | Models(m, originals) ensures Holds(m, s) {
        forall t | t in history ensures Holds(m, t) {
          assert Implies(originals, t);
        }
      }
    }
  }

  lemma TrueIsImplied(f: Formula, trail: seq<int>, c: Clause)
    requires TrailImplied(f, {}, trail) && TrueOrTautological(Lits(c), trail) && 0 !in c
    ensures Implies(f, Lits(c))
  {
    var x :| x in Lits(c) && (-x in Lits(c) || x in trail);
    forall m | Models(m, f) ensures Holds(m, Lits(c)) {
      if -x !in Lits(c) {
        assert x in Lits(trail) && True(m, x);
      } else {
        assert True(m, x) || True(m, -x);
      }
    }
  }

  lemma SimplifiedFacts(c: Clause, simplified: Clause, trail: seq<int>)
    requires Lits(simplified) == Lits(c) && !TrueOrTautological(Lits(c), trail)
    ensures forall x :: x in simplified <==> x in c
    ensures forall x :: x in simplified ==> x !in trail
  {
    assert forall x :: x in simplified <==> x in Lits(simplified);
    assert forall x :: x in c <==> x in Lits(c);
  }

  // ---------------------------------------------------------------- the registry

  lemma RegistryIgnored(mem: Memory, trail: seq<int>, nonces: seq<nat>, added: map<nat, set<int>>, refOf: map<nat, int>,
                        id: nat, s: set<int>)
    requires Registry(mem, trail, nonces, added, refOf) && id !in added && TrueOrTautological(s, trail)
    ensures Registry(mem, trail, nonces, added[id := s], refOf)
  {
    hide HashOf;
  }

  lemma RegistryForgets(mem: Memory, trail: seq<int>, nonces: seq<nat>, added: map<nat, set<int>>, refOf: map<nat, int>,
                        id: nat)
    requires Registry(mem, trail, nonces, added, refOf)
    requires id in added && TrueOrTautological(added[id], trail)
    ensures Registry(mem, trail, nonces, added - {id}, map i | i in refOf && i != id :: refOf[i])
  {
    hide HashOf, TrueOrTautological;
    var refOf' := map i | i in refOf && i != id :: refOf[i];
    forall r | Live(mem, r) ensures Owned(refOf', r) || TrueOrTautological(Lits(mem[r].lits), trail) {
      if i :| OwnedBy(refOf, i, r) {
        assert i != id ==> OwnedBy(refOf', i, r);
      }
    }
  }

  /** What the search in the hash table is certain to find. */
  lemma RegisteredIsStored(mem: Memory, trail: seq<int>, nonces: seq<nat>, added: map<nat, set<int>>, refOf: map<nat,
                           int>,
                           buckets: Buckets, id: nat, c: Clause)
    requires Registry(mem, trail, nonces, added, refOf) && HoldsRefs(mem, buckets, LiveRefs(mem)) && |nonces| == 4
    requires GoodMemory(mem) && Distinct(c) && !TrueOrTautological(Lits(c), trail)
    ensures id in added && added[id] == Lits(c) ==>
              |buckets| > 0 && id in refOf && refOf[id] in LiveRefs(mem)
                       && Matches(mem, refOf[id], HashOf(nonces, id), c)
  {
    hide HashOf;
    if id in added && added[id] == Lits(c) {
      assert id in refOf && Live(mem, refOf[id]);
      MatchesMeans(mem, refOf[id], HashOf(nonces, id), c);
      assert refOf[id] in LiveRefs(mem);
    }
  }

  /** The registry after the stored clause `d` was deleted in the name of `id`: another owner
      of `d` takes over the equal clause that was stored for `id`, or loses its clause. */
  ghost function AfterDelete(added: map<nat, set<int>>, refOf: map<nat, int>, id: nat, s: set<int>, d: int)
    : (map<nat, set<int>>, map<nat, int>)
  {
    if id in added && added[id] == s && id in refOf then
      (added - {id}, map i | i in refOf && i != id :: if refOf[i] == d then refOf[id] else refOf[i])
    else
      (map i | i in added && !OwnedBy(refOf, i, d) :: added[i], map i | i in refOf && refOf[i] != d :: refOf[i])
  }

  lemma RegistryDeleted(mem: Memory, trail: seq<int>, nonces: seq<nat>, added: map<nat, set<int>>, refOf: map<nat, int>,
                        id: nat, s: set<int>, d: int)
    requires Registry(mem, trail, nonces, added, refOf) && Live(mem, d) && |nonces| == 4
    requires mem[d].hash == HashOf(nonces, id) && Lits(mem[d].lits) == s && !TrueOrTautological(s, trail)
    ensures var after := AfterDelete(added, refOf, id, s, d);
            Registry(mem[d := mem[d].(size := 0)], trail, nonces, after.0, after.1)
  {
    hide HashOf, TrueOrTautological, AllOwned;
    OwnedDeleted(mem, trail, added, refOf, id, s, d);
  }

  lemma OwnedDeleted(mem: Memory, trail: seq<int>, added: map<nat, set<int>>, refOf: map<nat, int>, id: nat,
                     s: set<int>, d: int)
    requires AllOwned(mem, trail, refOf) && Live(mem, d) && !TrueOrTautological(Lits(mem[d].lits), trail)
    ensures AllOwned(mem[d := mem[d].(size := 0)], trail, AfterDelete(added, refOf, id, s, d).1)
  {
    hide TrueOrTautological;
    assert Owned(refOf, d);
    var mem', after := mem[d := mem[d].(size := 0)], AfterDelete(added, refOf, id, s, d).1;
    forall r | Live(mem', r) ensures Owned(after, r) || TrueOrTautological(Lits(mem'[r].lits), trail) {
      assert r != d && Live(mem, r) && mem'[r] == mem[r];
      if i :| OwnedBy(refOf, i, r) {
        if i != id || !(id in added && added[id] == s) {
          assert OwnedBy(after, i, r);
        } else if j :| OwnedBy(refOf, j, d) {
          assert OwnedBy(after, j, r);
        }
      }
    }
  }

  /** A stored clause that is not true at the root was added with its hash value and literals. */
  lemma StoredWasAdded(mem: Memory, trail: seq<int>, nonces: seq<nat>, added: map<nat, set<int>>,
                       refOf: map<nat, int>, id: nat, s: set<int>, d: int)
    requires Registry(mem, trail, nonces, added, refOf) && Live(mem, d) && |nonces| == 4
    requires mem[d].hash == HashOf(nonces, id) && Lits(mem[d].lits) == s && !TrueOrTautological(s, trail)
    ensures WasAdded(nonces, added, id, s)
  {
    hide HashOf, TrueOrTautological;
    var i :| OwnedBy(refOf, i, d);
    assert i in added && added[i] == s;
  }

  /** A clause with these literals was added and not deleted, under an identifier with the same hash value. */
  ghost predicate WasAdded(nonces: seq<nat>, added: map<nat, set<int>>, id: nat, s: set<int>)
    requires |nonces| == 4
  {
    exists i :: i in added && added[i] == s && HashOf(nonces, i) == HashOf(nonces, id)
  }

  // ---------------------------------------------------------------- what an addition may store

  /** Every stored clause was stored before or has the literals `s`. */
  ghost predicate StoresAtMost(mem: Memory, mem': Memory, s: set<int>) {
    forall r :: r in mem' ==> Lits(mem'[r].lits) == s || (r in mem && Lits(mem[r].lits) == Lits(mem'[r].lits))
  }

  lemma SameStoresNothing(mem: Memory, mem': Memory, s: set<int>)
    requires SameClauses(mem, mem')
    ensures StoresAtMost(mem, mem', s)
  {
    forall r | r in mem' ensures Lits(mem[r].lits) == Lits(mem'[r].lits) {
      SameMultisetSameLits(mem[r].lits, mem'[r].lits);
    }
  }

  lemma StoresOne(mem: Memory, mem': Memory, r: int, s: set<int>)
    requires r in mem' && mem' == mem[r := mem'[r]] && Lits(mem'[r].lits) == s
    ensures StoresAtMost(mem, mem', s)
  {
  }

  lemma FewerStoreNothing(mem: Memory, mem': Memory, mem'': Memory, s: set<int>)
    requires forall r :: r in mem' ==> r in mem && mem'[r] == mem[r]
    requires StoresAtMost(mem', mem'', s)
    ensures StoresAtMost(mem, mem'', s)
  {
  }

  /** Nothing is freed, nothing becomes garbage, and what is new is live. */
  ghost predicate MemoryStaysLive(mem: Memory, mem': Memory) {
    && (forall r :: r in mem ==> r in mem' && mem'[r].size == mem[r].size)
    && forall r :: r in mem' && r !in mem ==> Live(mem', r)
  }

  lemma SameStaysLive(mem: Memory, mem': Memory)
    requires SameClauses(mem, mem')
    ensures MemoryStaysLive(mem, mem')
  {
  }

  lemma OneMoreStaysLive(mem: Memory, mem': Memory, r: int)
    requires r !in mem && r in mem' && mem' == mem[r := mem'[r]] && mem'[r].size != 0
    ensures MemoryStaysLive(mem, mem')
  {
  }

  lemma StaysLiveMeans(mem: Memory, mem': Memory)
    requires MemoryStaysLive(mem, mem')
    ensures forall r :: r in mem ==> r in mem'
    ensures (forall r :: r in mem ==> Live(mem, r)) ==> forall r :: r in mem' ==> Live(mem', r)
  {
  }

  lemma StoredHasTwo(mem: Memory, r: int)
    requires GoodMemory(mem) && r in mem
    ensures |Lits(mem[r].lits)| >= 2
  {
    var c := mem[r].lits;
    assert GoodClause(mem[r]);
    assert c[0] != c[1] && c[0] in Lits(c) && c[1] in Lits(c);
    SubsetSize({c[0], c[1]}, Lits(c));
  }

  /** A clause with fewer than two literals is never stored. */
  lemma NothingIsStored(mem: Memory, s: set<int>)
    requires GoodMemory(mem) && StoresAtMost(map[], mem, s) && |s| < 2
    ensures mem == map[]
  {
    forall r | r in mem ensures false {
      StoredHasTwo(mem, r);
    }
  }

  /** A registered clause with fewer than two literals is true under the trail. */
  lemma ShortIsTrue(mem: Memory, trail: seq<int>, nonces: seq<nat>, added: map<nat, set<int>>, refOf: map<nat, int>,
                    id: nat, u: int)
    requires Registry(mem, trail, nonces, added, refOf) && GoodMemory(mem) && id in added && added[id] == {u} && u != 0
    ensures u in trail
  {
    if id in refOf {
      StoredHasTwo(mem, refOf[id]);
    } else {
      assert TrueOrTautological({u}, trail);
    }
  }

  /** Deleting under one identifier can make another one lose its clause only if both have the
      same literals and the same hash value. */
  lemma OthersSurvive(mem: Memory, trail: seq<int>, nonces: seq<nat>, added: map<nat, set<int>>, refOf: map<nat, int>,
                      id: nat, s: set<int>, d: int)
    requires Registry(mem, trail, nonces, added, refOf) && Live(mem, d) && |nonces| == 4
    requires mem[d].hash == HashOf(nonces, id) && Lits(mem[d].lits) == s
    ensures OthersStay(nonces, added, AfterDelete(added, refOf, id, s, d).0, id, s)
  {
    hide HashOf, TrueOrTautological;
  }

  /** What deleting a found clause in the name of `id` does to the registry. */
  lemma FoundIsDeleted(mem: Memory, trail: seq<int>, nonces: seq<nat>, added: map<nat, set<int>>,
                       refOf: map<nat, int>, id: nat, c: Clause, d: int)
    requires Registry(mem, trail, nonces, added, refOf) && Live(mem, d) && GoodMemory(mem) && |nonces| == 4
    requires Distinct(c) && Matches(mem, d, HashOf(nonces, id), c) && !TrueOrTautological(Lits(c), trail)
    ensures Lits(mem[d].lits) == Lits(c) && WasAdded(nonces, added, id, Lits(c))
    ensures var after := AfterDelete(added, refOf, id, Lits(c), d);
            && Registry(mem[d := mem[d].(size := 0)], trail, nonces, after.0, after.1)
            && OthersStay(nonces, added, after.0, id, Lits(c))
            && (id in added && added[id] == Lits(c) ==> after.0 == added - {id})
  {
    MatchesMeans(mem, d, HashOf(nonces, id), c);
    StoredWasAdded(mem, trail, nonces, added, refOf, id, Lits(c), d);
    RegistryDeleted(mem, trail, nonces, added, refOf, id, Lits(c), d);
    OthersSurvive(mem, trail, nonces, added, refOf, id, Lits(c), d);
    assert id in added && added[id] == Lits(c) ==> id in refOf;
    hide HashOf, TrueOrTautological, AllOwned, WasAdded, OthersStay, Matches, GoodMemory;
  }

  ghost predicate OthersStay(nonces: seq<nat>, added: map<nat, set<int>>, added': map<nat, set<int>>, id: nat,
                             s: set<int>)
    requires |nonces| == 4
  {
    && (forall i :: i in added' ==> i in added && added'[i] == added[i])
    && forall i :: i in added && i != id && !(added[i] == s && HashOf(nonces, i) == HashOf(nonces, id)) ==> i in added'
  }

  lemma OthersStayRemoved(nonces: seq<nat>, added: map<nat, set<int>>, id: nat, s: set<int>)
    requires |nonces| == 4
    ensures OthersStay(nonces, added, added, id, s) && OthersStay(nonces, added, added - {id}, id, s)
  {
  }
}
