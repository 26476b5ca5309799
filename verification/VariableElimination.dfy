/** The elimination of one variable as a whole. */
module VariableElimination {
  import opened Cnf
  import opened Lists
  import opened Extension
  import opened Reconstruction
  import opened InternalSolver
  import opened ElimTables
  import opened Elimination

  // ---------------------------------------------------------------- pairs to be resolved

  /** With gates only pairs of a gate clause and another clause are resolved, unless the
      definition was found semantically. */
  predicate Wanted(cs: seq<ClauseRecord>, c: int, d: int, substitute: bool, resolveGates: bool) {
    && 0 <= c < |cs| && 0 <= d < |cs|
    && (resolveGates || !substitute || cs[c].gate != cs[d].gate)
  }

  ghost predicate AllDone(t: Table, c: int, ds: seq<int>, substitute: bool, resolveGates: bool, v: int) {
    forall d :: d in ds && Wanted(t.cs, c, d, substitute, resolveGates) ==> Done(t, c, d, v)
  }

  lemma WantedStays(t: Table, t': Table, c: int, d: int, substitute: bool, resolveGates: bool, v: int)
    requires Grown(t, t', v) && 0 <= c < |t.cs| && 0 <= d < |t.cs|
    ensures Wanted(t.cs, c, d, substitute, resolveGates) == Wanted(t'.cs, c, d, substitute, resolveGates)
  {
    GrownRecords(t, t', v);
    assert OnlyGarbage(t.cs[c], t'.cs[c]) && OnlyGarbage(t.cs[d], t'.cs[d]);
  }

  lemma AllDoneStays(t: Table, t': Table, c: int, ds: seq<int>, substitute: bool, resolveGates: bool, v: int)
    requires AllDone(t, c, ds, substitute, resolveGates, v) && Grown(t, t', v) && Unassigned(t', v)
    requires 0 <= c < |t.cs| && forall d :: d in ds ==> 0 <= d < |t.cs|
    ensures AllDone(t', c, ds, substitute, resolveGates, v)
  {
    hide Grown, Done, Wanted;
    forall d | d in ds && Wanted(t'.cs, c, d, substitute, resolveGates) ensures Done(t', c, d, v) {
      WantedStays(t, t', c, d, substitute, resolveGates, v);
      DoneStays(t, t', c, d, v);
    }
  }

  lemma AllDoneStep(t: Table, c: int, ds: seq<int>, j: nat, substitute: bool, resolveGates: bool, v: int)
    requires j < |ds| && AllDone(t, c, ds[..j], substitute, resolveGates, v)
    requires Wanted(t.cs, c, ds[j], substitute, resolveGates) ==> Done(t, c, ds[j], v)
    ensures AllDone(t, c, ds[..j + 1], substitute, resolveGates, v)
  {
    hide Done, Wanted;
    assert ds[..j + 1] == ds[..j] + [ds[j]];
  }

  // ---------------------------------------------------------------- counting resolvents

  type Pairs = set<(int, int)>

  /** Every wanted pair that is still open was counted, and its resolvent is small enough;
      pairs are counted by their positions in the occurrence lists. */
  ghost predicate Counted(t: Table, c: int, i: int, ds: seq<int>, substitute: bool, resolveGates: bool, v: int,
                          counted: Pairs, limit: int) {
    forall j :: 0 <= j < |ds| && Wanted(t.cs, c, ds[j], substitute, resolveGates) && Open(t, c, ds[j], v) ==>
      (i, j) in counted && |Rest(t, c, ds[j], v)| <= limit
  }

  ghost predicate AllCounted(t: Table, cs: seq<int>, ds: seq<int>, substitute: bool, resolveGates: bool, v: int,
                             counted: Pairs, limit: int) {
    forall i :: 0 <= i < |cs| ==> Counted(t, cs[i], i, ds, substitute, resolveGates, v, counted, limit)
  }

  lemma CountedStays(t: Table, t': Table, c: int, i: int, ds: seq<int>, substitute: bool, resolveGates: bool, v: int,
                     counted: Pairs, counted': Pairs, limit: int)
    requires Counted(t, c, i, ds, substitute, resolveGates, v, counted, limit) && Grown(t, t', v) && counted <= counted'
    requires 0 <= c < |t.cs| && forall d :: d in ds ==> 0 <= d < |t.cs|
    ensures Counted(t', c, i, ds, substitute, resolveGates, v, counted', limit)
  {
    hide Grown, Open, Rest, Wanted;
    forall j | 0 <= j < |ds| && Wanted(t'.cs, c, ds[j], substitute, resolveGates) && Open(t', c, ds[j], v)
      ensures (i, j) in counted' && |Rest(t', c, ds[j], v)| <= limit
    {
      assert ds[j] in ds;
      WantedStays(t, t', c, ds[j], substitute, resolveGates, v);
      OpenEarlier(t, t', c, ds[j], v);
      SubsetSize(Rest(t', c, ds[j], v), Rest(t, c, ds[j], v));
    }
  }

  lemma AllCountedStay(t: Table, t': Table, cs: seq<int>, ds: seq<int>, substitute: bool, resolveGates: bool, v: int,
                       counted: Pairs, counted': Pairs, limit: int)
    requires AllCounted(t, cs, ds, substitute, resolveGates, v, counted, limit) && Grown(t, t', v)
    requires counted <= counted'
    requires (forall c :: c in cs ==> 0 <= c < |t.cs|) && forall d :: d in ds ==> 0 <= d < |t.cs|
    ensures AllCounted(t', cs, ds, substitute, resolveGates, v, counted', limit)
  {
    hide Grown, Counted;
    forall i | 0 <= i < |cs| ensures Counted(t', cs[i], i, ds, substitute, resolveGates, v, counted', limit) {
      assert cs[i] in cs;
      CountedStays(t, t', cs[i], i, ds, substitute, resolveGates, v, counted, counted', limit);
    }
  }

  lemma CountedStep(t: Table, c: int, i: int, ds: seq<int>, j: nat, substitute: bool, resolveGates: bool, v: int,
                    counted: Pairs, counted': Pairs, limit: int)
    requires j < |ds| && Counted(t, c, i, ds[..j], substitute, resolveGates, v, counted, limit) && counted <= counted'
    requires Wanted(t.cs, c, ds[j], substitute, resolveGates) && Open(t, c, ds[j], v) ==>
               (i, j) in counted' && |Rest(t, c, ds[j], v)| <= limit
    ensures Counted(t, c, i, ds[..j + 1], substitute, resolveGates, v, counted', limit)
  {
    hide Open, Rest, Wanted;
    assert ds[..j + 1] == ds[..j] + [ds[j]];
  }

  lemma AllCountedStep(t: Table, cs: seq<int>, i: nat, ds: seq<int>, substitute: bool, resolveGates: bool, v: int,
                       counted: Pairs, limit: int)
    requires i < |cs| && AllCounted(t, cs[..i], ds, substitute, resolveGates, v, counted, limit)
    requires Counted(t, cs[i], i, ds, substitute, resolveGates, v, counted, limit)
    ensures AllCounted(t, cs[..i + 1], ds, substitute, resolveGates, v, counted, limit)
  {
    hide Counted;
    assert cs[..i + 1] == cs[..i] + [cs[i]];
  }

  /** The position comes before `(i, j)` when the pairs are visited clause by clause. */
  ghost predicate Before(p: (int, int), i: int, j: int) {
    p.0 < i || (p.0 == i && p.1 < j)
  }

  /** At the table the pair at positions `(i, j)` had a resolvent to be added, while every earlier pair
      was settled, or counted with a resolvent that is small enough. */
  ghost predicate CountedAt(t: Table, ps: seq<int>, ns: seq<int>, i: int, j: int, substitute: bool,
                            resolveGates: bool, v: int, counted: Pairs, limit: int) {
    && 0 <= i < |ps| && 0 <= j < |ns|
    && Wanted(t.cs, ps[i], ns[j], substitute, resolveGates) && ToBeAdded(t, ps[i], ns[j], v)
    && AllCounted(t, ps[..i], ns, substitute, resolveGates, v, counted, limit)
    && Counted(t, ps[i], i, ns[..j], substitute, resolveGates, v, counted, limit)
  }

  /** The pair was counted at some table on the way from `t` to `t'`. */
  ghost predicate CountedBetween(t: Table, t': Table, ps: seq<int>, ns: seq<int>, i: int, j: int, substitute: bool,
                                 resolveGates: bool, v: int, counted: Pairs, limit: int) {
    exists m: Table :: Grown(t, m, v) && Grown(m, t', v)
                       && CountedAt(m, ps, ns, i, j, substitute, resolveGates, v, counted, limit)
  }

  /** All pairs of the set were counted on the way. */
  ghost predicate RightlyCounted(t: Table, t': Table, ps: seq<int>, ns: seq<int>, substitute: bool,
                                 resolveGates: bool, v: int, counted: Pairs, limit: int) {
    forall i, j :: (i, j) in counted ==>
      CountedBetween(t, t', ps, ns, i, j, substitute, resolveGates, v, counted, limit)
  }

  /** The resolvent of a counted pair is too large. */
  ghost predicate TooLarge(t: Table, ps: seq<int>, ns: seq<int>, substitute: bool, resolveGates: bool, v: int,
                           counted: Pairs, limit: int) {
    exists i, j :: CountedAt(t, ps, ns, i, j, substitute, resolveGates, v, counted, limit)
                   && |Rest(t, ps[i], ns[j], v)| > limit
  }

  /** The pairs before `(i, j)` have been visited. */
  ghost predicate Counting(t: Table, t': Table, ps: seq<int>, ns: seq<int>, i: nat, j: nat, substitute: bool,
                           resolveGates: bool, v: int, counted: Pairs, limit: int) {
    && i < |ps| && j <= |ns| && Grown(t, t', v)
    && (forall p :: p in counted ==> Before(p, i, j))
    && AllCounted(t', ps[..i], ns, substitute, resolveGates, v, counted, limit)
    && Counted(t', ps[i], i, ns[..j], substitute, resolveGates, v, counted, limit)
    && RightlyCounted(t, t', ps, ns, substitute, resolveGates, v, counted, limit)
  }

  ghost predicate InRange(t: Table, ps: seq<int>, ns: seq<int>) {
    (forall c :: c in ps ==> 0 <= c < |t.cs|) && forall d :: d in ns ==> 0 <= d < |t.cs|
  }

  lemma RightlyCountedLater(t: Table, t': Table, t'': Table, ps: seq<int>, ns: seq<int>, substitute: bool,
                            resolveGates: bool, v: int, counted: Pairs, limit: int)
    requires RightlyCounted(t, t', ps, ns, substitute, resolveGates, v, counted, limit) && Grown(t', t'', v)
    ensures RightlyCounted(t, t'', ps, ns, substitute, resolveGates, v, counted, limit)
  {
    hide Grown, CountedAt;
    forall i, j | (i, j) in counted
      ensures CountedBetween(t, t'', ps, ns, i, j, substitute, resolveGates, v, counted, limit)
    {
      assert CountedBetween(t, t', ps, ns, i, j, substitute, resolveGates, v, counted, limit);
      var m: Table :| Grown(t, m, v) && Grown(m, t', v)
                      && CountedAt(m, ps, ns, i, j, substitute, resolveGates, v, counted, limit);
      GrownTransitive(m, t', t'', v);
    }
  }

  lemma MoreCounted(t: Table, ps: seq<int>, ns: seq<int>, i: int, j: int, substitute: bool, resolveGates: bool,
                    v: int, counted: Pairs, counted': Pairs, limit: int)
    requires CountedAt(t, ps, ns, i, j, substitute, resolveGates, v, counted, limit) && counted <= counted'
    ensures CountedAt(t, ps, ns, i, j, substitute, resolveGates, v, counted', limit)
  {
    hide Wanted, ToBeAdded, Open, Rest;
    forall k | 0 <= k < i ensures Counted(t, ps[..i][k], k, ns, substitute, resolveGates, v, counted', limit) {
      assert Counted(t, ps[..i][k], k, ns, substitute, resolveGates, v, counted, limit);
    }
  }

  /** The next pair is counted at this table. */
  lemma CountOne(t: Table, t': Table, ps: seq<int>, ns: seq<int>, i: nat, j: nat, substitute: bool,
                 resolveGates: bool, v: int, counted: Pairs, limit: int)
    requires Counting(t, t', ps, ns, i, j, substitute, resolveGates, v, counted, limit) && j < |ns|
    requires Wanted(t'.cs, ps[i], ns[j], substitute, resolveGates) && ToBeAdded(t', ps[i], ns[j], v)
    ensures var more := counted + {(i, j)};
            && (i, j) !in counted
            && CountedAt(t', ps, ns, i, j, substitute, resolveGates, v, more, limit)
            && RightlyCounted(t, t', ps, ns, substitute, resolveGates, v, more, limit)
            && AllCounted(t', ps[..i], ns, substitute, resolveGates, v, more, limit)
            && Counted(t', ps[i], i, ns[..j], substitute, resolveGates, v, more, limit)
  {
    hide Grown, CountedAt, AllCounted, Counted, Wanted, ToBeAdded;
    var more := counted + {(i, j)};
    assert CountedAt(t', ps, ns, i, j, substitute, resolveGates, v, counted, limit) by {
      CountedHere(t, t', ps, ns, i, j, substitute, resolveGates, v, counted, limit);
    }
    MoreCounted(t', ps, ns, i, j, substitute, resolveGates, v, counted, more, limit);
    CountedAtMeans(t', ps, ns, i, j, substitute, resolveGates, v, more, limit);
    GrownReflexive(t', v);
    forall k, l | (k, l) in more
      ensures CountedBetween(t, t', ps, ns, k, l, substitute, resolveGates, v, more, limit)
    {
      if (k, l) in counted {
        assert CountedBetween(t, t', ps, ns, k, l, substitute, resolveGates, v, counted, limit);
        var m: Table :| Grown(t, m, v) && Grown(m, t', v)
                        && CountedAt(m, ps, ns, k, l, substitute, resolveGates, v, counted, limit);
        MoreCounted(m, ps, ns, k, l, substitute, resolveGates, v, counted, more, limit);
      }
    }
  }

  lemma CountedHere(t: Table, t': Table, ps: seq<int>, ns: seq<int>, i: nat, j: nat, substitute: bool,
                    resolveGates: bool, v: int, counted: Pairs, limit: int)
    requires Counting(t, t', ps, ns, i, j, substitute, resolveGates, v, counted, limit) && j < |ns|
    requires Wanted(t'.cs, ps[i], ns[j], substitute, resolveGates) && ToBeAdded(t', ps[i], ns[j], v)
    ensures CountedAt(t', ps, ns, i, j, substitute, resolveGates, v, counted, limit)
  {
    hide Grown, AllCounted, Counted, Wanted, ToBeAdded;
  }

  lemma CountedAtMeans(t: Table, ps: seq<int>, ns: seq<int>, i: nat, j: nat, substitute: bool,
                       resolveGates: bool, v: int, counted: Pairs, limit: int)
    requires CountedAt(t, ps, ns, i, j, substitute, resolveGates, v, counted, limit)
    ensures AllCounted(t, ps[..i], ns, substitute, resolveGates, v, counted, limit)
    ensures Counted(t, ps[i], i, ns[..j], substitute, resolveGates, v, counted, limit)
  {
    hide AllCounted, Counted;
  }

  /** A pair that was counted and is small enough has been visited. */
  lemma CountSmall(t: Table, t': Table, ps: seq<int>, ns: seq<int>, i: nat, j: nat, substitute: bool,
                   resolveGates: bool, v: int, counted: Pairs, limit: int)
    requires Counting(t, t', ps, ns, i, j, substitute, resolveGates, v, counted, limit) && j < |ns|
    requires Wanted(t'.cs, ps[i], ns[j], substitute, resolveGates) && ToBeAdded(t', ps[i], ns[j], v)
    requires |Rest(t', ps[i], ns[j], v)| <= limit
    ensures Counting(t, t', ps, ns, i, j + 1, substitute, resolveGates, v, counted + {(i, j)}, limit)
  {
    hide Grown, AllCounted, Counted, Wanted, ToBeAdded, RightlyCounted, Rest, Open;
    CountOne(t, t', ps, ns, i, j, substitute, resolveGates, v, counted, limit);
    var more := counted + {(i, j)};
    CountedStep(t', ps[i], i, ns, j, substitute, resolveGates, v, more, more, limit);
  }

  /** A pair that is not open any more has been visited, whatever has become of the clauses. */
  lemma CountNone(t: Table, t': Table, t'': Table, ps: seq<int>, ns: seq<int>, i: nat, j: nat, substitute: bool,
                  resolveGates: bool, v: int, counted: Pairs, limit: int)
    requires Counting(t, t', ps, ns, i, j, substitute, resolveGates, v, counted, limit) && j < |ns|
    requires Grown(t', t'', v) && InRange(t', ps, ns)
    requires !(Wanted(t''.cs, ps[i], ns[j], substitute, resolveGates) && Open(t'', ps[i], ns[j], v))
    ensures Counting(t, t'', ps, ns, i, j + 1, substitute, resolveGates, v, counted, limit)
  {
    hide Grown, AllCounted, Counted, Wanted, RightlyCounted, Rest, Open;
    GrownTransitive(t, t', t'', v);
    PrefixMembers(ps, i);
    PrefixMembers(ns, j);
    assert ps[i] in ps;
    AllCountedStay(t', t'', ps[..i], ns, substitute, resolveGates, v, counted, counted, limit);
    CountedStays(t', t'', ps[i], i, ns[..j], substitute, resolveGates, v, counted, counted, limit);
    CountedStep(t'', ps[i], i, ns, j, substitute, resolveGates, v, counted, counted, limit);
    RightlyCountedLater(t, t', t'', ps, ns, substitute, resolveGates, v, counted, limit);
  }

  /** Counts the resolvents with one clause and gives up beyond the limits. */
  method CountWith(s: Internal, c: nat, pivot: int, substitute: bool, resolveGates: bool, bound: int, clauseLimit: int,
                   count: nat, ghost v: int, ghost t0: Table, ghost ps: seq<int>, ghost i: nat, ghost before: Pairs)
    returns (resolvents: nat, bounded: bool, ghost counted: Pairs)
    requires Ready(s) && !s.unsat && Abs(pivot) == v > 0 && Unassigned(TableOf(s), v) && Listed(s.clauses, c, pivot)
    requires |before| == count && (count == 0 || count <= bound) && i < |ps| && ps[i] == c
    requires InRange(TableOf(s), ps, s.Occs(-pivot))
    requires Counting(t0, TableOf(s), ps, s.Occs(-pivot), i, 0, substitute, resolveGates, v, before, clauseLimit)
    modifies s`clauses, s`fixedLits, s`occs, s`unsat, s`clauseId
    ensures Ready(s) && Grown(old(TableOf(s)), TableOf(s), v)
    ensures s.Occs(v) == old(s.Occs(v)) && s.Occs(-v) == old(s.Occs(-v))
    ensures s.unsat ==> Hopeless(TableOf(s)) && !bounded
    ensures bounded ==> Unassigned(TableOf(s), v) && (resolvents == 0 || resolvents <= bound)
    ensures |counted| == resolvents
    ensures bounded ==> Counting(t0, TableOf(s), ps, s.Occs(-pivot), i, |s.Occs(-pivot)|, substitute, resolveGates, v,
                                 counted, clauseLimit)
    ensures RightlyCounted(t0, TableOf(s), ps, s.Occs(-pivot), substitute, resolveGates, v, counted, clauseLimit)
    ensures !bounded && !s.unsat && Unassigned(TableOf(s), v) ==>
              resolvents > bound
              || TooLarge(TableOf(s), ps, s.Occs(-pivot), substitute, resolveGates, v, counted, clauseLimit)
    ensures Strengthened(old(TableOf(s)), TableOf(s))
  {
    hide Meaning, Grown, GoodTable, Done, Hopeless, GoodLits, Ready, Listed, Counted, Open, Rest, Strengthened,
         Counting, RightlyCounted, CountedAt, AllCounted, ToBeAdded, Wanted, InRange, Unassigned, TooLarge;
    NothingStrengthened(TableOf(s), TableOf(s));
    resolvents, counted := count, before;
    bounded := true;
    GrownReflexive(TableOf(s), v);
    var ns := s.Occs(-pivot);
    for j := 0 to |ns|
      invariant Ready(s) && Grown(old(TableOf(s)), TableOf(s), v) && !s.unsat && Unassigned(TableOf(s), v)
      invariant s.Occs(v) == old(s.Occs(v)) && s.Occs(-v) == old(s.Occs(-v)) && s.Occs(-pivot) == ns
      invariant (resolvents == 0 || resolvents <= bound) && |counted| == resolvents
      invariant Counting(t0, TableOf(s), ps, ns, i, j, substitute, resolveGates, v, counted, clauseLimit)
      invariant Strengthened(old(TableOf(s)), TableOf(s))
    {
      var d := ns[j];
      assert d in ns;
      ListedStays(old(TableOf(s)), s, c, pivot, v);
      StillInRange(old(TableOf(s)), TableOf(s), ps, ns, v);
      ghost var t := TableOf(s);
      var counts, stop := CountPair(s, c, pivot, d, substitute, resolveGates, clauseLimit, v);
      GrownTransitive(old(TableOf(s)), t, TableOf(s), v);
      StrengthenedTransitive(old(TableOf(s)), t, TableOf(s), v);
      if counts {
        CountOne(t0, t, ps, ns, i, j, substitute, resolveGates, v, counted, clauseLimit);
        if stop {
          LargeAt(t, ps, ns, i, j, substitute, resolveGates, v, counted + {(i, j)}, clauseLimit);
        } else {
          CountSmall(t0, t, ps, ns, i, j, substitute, resolveGates, v, counted, clauseLimit);
        }
        resolvents := resolvents + 1;
        counted := counted + {(i, j)};
      } else if !stop {
        CountNone(t0, t, TableOf(s), ps, ns, i, j, substitute, resolveGates, v, counted, clauseLimit);
      } else {
        CountingMeans(t0, t, ps, ns, i, j, substitute, resolveGates, v, counted, clauseLimit);
        RightlyCountedLater(t0, t, TableOf(s), ps, ns, substitute, resolveGates, v, counted, clauseLimit);
      }
      if stop || (counts && resolvents > bound) {
        return resolvents, false, counted;
      }
    }
    CountingMeans(t0, TableOf(s), ps, ns, i, |ns|, substitute, resolveGates, v, counted, clauseLimit);
  }

  lemma StillInRange(t: Table, t': Table, ps: seq<int>, ns: seq<int>, v: int)
    requires InRange(t, ps, ns) && Grown(t, t', v)
    ensures InRange(t', ps, ns)
  {
    GrownRecords(t, t', v);
  }

  lemma CountingMeans(t: Table, t': Table, ps: seq<int>, ns: seq<int>, i: nat, j: nat, substitute: bool,
                      resolveGates: bool, v: int, counted: Pairs, limit: int)
    requires Counting(t, t', ps, ns, i, j, substitute, resolveGates, v, counted, limit)
    ensures RightlyCounted(t, t', ps, ns, substitute, resolveGates, v, counted, limit)
  {
    hide RightlyCounted;
  }

  lemma LargeAt(t: Table, ps: seq<int>, ns: seq<int>, i: nat, j: nat, substitute: bool, resolveGates: bool, v: int,
                counted: Pairs, limit: int)
    requires CountedAt(t, ps, ns, i, j, substitute, resolveGates, v, counted, limit)
    requires i < |ps| && j < |ns| && |Rest(t, ps[i], ns[j], v)| > limit
    ensures TooLarge(t, ps, ns, substitute, resolveGates, v, counted, limit)
  {
    hide CountedAt, Rest;
  }

  /** One pair: whether it counts, and whether counting has to stop because of it. */
  method CountPair(s: Internal, c: nat, pivot: int, d: int, substitute: bool, resolveGates: bool, clauseLimit: int,
                   ghost v: int)
    returns (counts: bool, stop: bool)
    requires Ready(s) && !s.unsat && Abs(pivot) == v > 0 && Unassigned(TableOf(s), v) && Listed(s.clauses, c, pivot)
    requires d in s.Occs(-pivot)
    modifies s`clauses, s`fixedLits, s`occs, s`unsat, s`clauseId
    ensures Ready(s) && Grown(old(TableOf(s)), TableOf(s), v)
    ensures s.Occs(v) == old(s.Occs(v)) && s.Occs(-v) == old(s.Occs(-v))
    ensures s.unsat ==> Hopeless(TableOf(s)) && stop
    ensures !stop ==> Unassigned(TableOf(s), v)
    ensures counts <==> Wanted(old(s.clauses), c, d, substitute, resolveGates) && ToBeAdded(old(TableOf(s)), c, d, v)
    ensures counts ==> TableOf(s) == old(TableOf(s)) && !s.unsat
    ensures counts ==> (stop <==> |Rest(TableOf(s), c, d, v)| > clauseLimit)
    ensures !counts && stop ==> s.unsat || !Unassigned(TableOf(s), v)
    ensures !counts && !stop ==> !(Wanted(s.clauses, c, d, substitute, resolveGates) && Open(TableOf(s), c, d, v))
    ensures Strengthened(old(TableOf(s)), TableOf(s))
  {
    hide Meaning, Grown, GoodTable, Done, Hopeless, GoodLits, Ready, Listed, Open, Rest, Strengthened;
    NothingStrengthened(TableOf(s), TableOf(s));
    ListedOcc(s, -pivot, d);
    ListedRange(s.clauses, c, pivot);
    if s.clauses[d].garbage || (!resolveGates && substitute && s.clauses[c].gate == s.clauses[d].gate) {
      GrownReflexive(TableOf(s), v);
      if s.clauses[d].garbage {
        GarbageIsDone(TableOf(s), c, d, v);
      }
      return false, false;
    }
    var clause;
    counts, clause := ResolveClauses(s, c, pivot, d, true, v);
    stop := if counts then |clause| > clauseLimit else s.unsat || s.Val(pivot) != 0;
    if !counts && !stop {
      ValIsUnassigned(s, pivot);
    }
  }

  lemma ListedRange(cs: seq<ClauseRecord>, c: int, lit: int)
    requires Listed(cs, c, lit)
    ensures 0 <= c < |cs|
  {
  }

  lemma ListedStays(t: Table, s: Internal, c: nat, lit: int, v: int)
    requires Grown(t, TableOf(s), v) && Listed(t.cs, c, lit)
    ensures Listed(s.clauses, c, lit)
  {
    GrownRecords(t, TableOf(s), v);
  }

  lemma ListedOcc(s: Internal, lit: int, c: int)
    requires Ready(s) && c in s.Occs(lit)
    ensures Listed(s.clauses, c, lit) && 0 <= c < |s.clauses|
  {
    ListedClauses(s, lit);
  }

  /** The first `i` clauses have been resolved with all others. */
  ghost predicate RowsCounted(t: Table, t': Table, ps: seq<int>, ns: seq<int>, i: nat, substitute: bool,
                              resolveGates: bool, v: int, counted: Pairs, limit: int) {
    && i <= |ps| && Grown(t, t', v) && (forall p :: p in counted ==> p.0 < i)
    && AllCounted(t', ps[..i], ns, substitute, resolveGates, v, counted, limit)
    && RightlyCounted(t, t', ps, ns, substitute, resolveGates, v, counted, limit)
  }

  lemma RowStarts(t: Table, t': Table, ps: seq<int>, ns: seq<int>, i: nat, substitute: bool, resolveGates: bool,
                  v: int, counted: Pairs, limit: int)
    requires RowsCounted(t, t', ps, ns, i, substitute, resolveGates, v, counted, limit) && i < |ps|
    ensures Counting(t, t', ps, ns, i, 0, substitute, resolveGates, v, counted, limit)
  {
    hide Grown, AllCounted, RightlyCounted;
  }

  lemma RowEnds(t: Table, t': Table, ps: seq<int>, ns: seq<int>, i: nat, substitute: bool, resolveGates: bool,
                v: int, counted: Pairs, limit: int)
    requires Counting(t, t', ps, ns, i, |ns|, substitute, resolveGates, v, counted, limit)
    ensures RowsCounted(t, t', ps, ns, i + 1, substitute, resolveGates, v, counted, limit)
  {
    hide Grown, AllCounted, RightlyCounted, Counted;
    assert ns[..|ns|] == ns;
    AllCountedStep(t', ps, i, ns, substitute, resolveGates, v, counted, limit);
  }

  lemma RowSkipped(t: Table, t': Table, ps: seq<int>, ns: seq<int>, i: nat, substitute: bool, resolveGates: bool,
                   v: int, counted: Pairs, limit: int)
    requires RowsCounted(t, t', ps, ns, i, substitute, resolveGates, v, counted, limit) && i < |ps|
    requires 0 <= ps[i] < |t'.cs| && t'.cs[ps[i]].garbage
    ensures RowsCounted(t, t', ps, ns, i + 1, substitute, resolveGates, v, counted, limit)
  {
    hide Grown, AllCounted, RightlyCounted, Counted;
    GarbageCounted(t', ps[i], i, ns, substitute, resolveGates, v, counted, limit);
    AllCountedStep(t', ps, i, ns, substitute, resolveGates, v, counted, limit);
  }

  lemma NoRows(t: Table, ps: seq<int>, ns: seq<int>, substitute: bool, resolveGates: bool, v: int, limit: int)
    ensures RowsCounted(t, t, ps, ns, 0, substitute, resolveGates, v, {}, limit)
  {
    GrownReflexive(t, v);
  }

  lemma RowsMean(t: Table, t': Table, ps: seq<int>, ns: seq<int>, i: nat, substitute: bool, resolveGates: bool,
                 v: int, counted: Pairs, limit: int)
    requires RowsCounted(t, t', ps, ns, i, substitute, resolveGates, v, counted, limit)
    ensures RightlyCounted(t, t', ps, ns, substitute, resolveGates, v, counted, limit)
    ensures i == |ps| ==> AllCounted(t', ps, ns, substitute, resolveGates, v, counted, limit)
  {
    hide Grown, AllCounted, RightlyCounted;
    assert i == |ps| ==> ps[..i] == ps;
  }

  /** Why a variable is not eliminated although it has no value: one list is empty and the bound is negative,
      more resolvents than allowed were counted, or one that was counted is too large. */
  ghost predicate Refused(t: Table, t': Table, ps: seq<int>, ns: seq<int>, substitute: bool, resolveGates: bool,
                          v: int, elimBound: int, limit: int) {
    if ps == [] || ns == [] then elimBound < 0 && t' == t
    else exists counted: Pairs ::
      && RightlyCounted(t, t', ps, ns, substitute, resolveGates, v, counted, limit)
      && (|counted| > |ps| + |ns| + elimBound || TooLarge(t', ps, ns, substitute, resolveGates, v, counted, limit))
  }

  lemma NowRefused(t: Table, t': Table, ps: seq<int>, ns: seq<int>, substitute: bool, resolveGates: bool, v: int,
                   elimBound: int, counted: Pairs, limit: int)
    requires ps != [] && ns != []
    requires RightlyCounted(t, t', ps, ns, substitute, resolveGates, v, counted, limit)
    requires |counted| > |ps| + |ns| + elimBound
             || TooLarge(t', ps, ns, substitute, resolveGates, v, counted, limit)
    ensures Refused(t, t', ps, ns, substitute, resolveGates, v, elimBound, limit)
  {
    hide RightlyCounted, TooLarge;
  }

  /** Tries all resolutions while the number and size of resolvents stay within the limits;
      garbage, units and strengthened clauses found on the way are kept in any case. */
  method ElimResolventsAreBounded(s: Internal, pivot: int, substitute: bool, resolveGates: bool,
                                  elimBound: int, clauseLimit: int, ghost v: int)
    returns (bounded: bool, ghost counted: Pairs)
    requires Ready(s) && !s.unsat && Abs(pivot) == v > 0 && Unassigned(TableOf(s), v)
    modifies s`clauses, s`fixedLits, s`occs, s`unsat, s`clauseId
    ensures Ready(s) && Grown(old(TableOf(s)), TableOf(s), v)
    ensures s.Occs(v) == old(s.Occs(v)) && s.Occs(-v) == old(s.Occs(-v))
    ensures s.unsat ==> Hopeless(TableOf(s)) && !bounded
    ensures bounded ==> Unassigned(TableOf(s), v)
    ensures bounded ==> (counted == {} || |counted| <= |s.Occs(v)| + |s.Occs(-v)| + elimBound)
    ensures bounded ==>
              AllCounted(TableOf(s), s.Occs(pivot), s.Occs(-pivot), substitute, resolveGates, v, counted, clauseLimit)
    ensures bounded && (s.Occs(pivot) == [] || s.Occs(-pivot) == []) ==> elimBound >= 0
    ensures RightlyCounted(old(TableOf(s)), TableOf(s), s.Occs(pivot), s.Occs(-pivot), substitute, resolveGates, v,
                           counted, clauseLimit)
    ensures !bounded && !s.unsat && Unassigned(TableOf(s), v) ==>
              Refused(old(TableOf(s)), TableOf(s), s.Occs(pivot), s.Occs(-pivot), substitute, resolveGates, v,
                      elimBound, clauseLimit)
    ensures Strengthened(old(TableOf(s)), TableOf(s))
  {
    hide Meaning, Grown, GoodTable, Done, Hopeless, GoodLits, Ready, Listed, Unassigned, Counted, Strengthened,
         RowsCounted, Counting, RightlyCounted, AllCounted, TooLarge, InRange;
    GrownReflexive(TableOf(s), v);
    NothingStrengthened(TableOf(s), TableOf(s));
    var ps := s.Occs(pivot);
    ghost var ns := s.Occs(-pivot);
    ghost var t0 := TableOf(s);
    var pos, neg := |ps|, |s.Occs(-pivot)|;
    counted := {};
    NoRows(t0, ps, ns, substitute, resolveGates, v, clauseLimit);
    RowsMean(t0, t0, ps, ns, 0, substitute, resolveGates, v, {}, clauseLimit);
    if pos == 0 || neg == 0 {
      NoPairs(TableOf(s), ps, ns, substitute, resolveGates, v, clauseLimit);
      return elimBound >= 0, counted;
    }
    var bound := pos + neg + elimBound;
    var resolvents := 0;
    for i := 0 to |ps|
      invariant Ready(s) && Grown(t0, TableOf(s), v) && !s.unsat && Unassigned(TableOf(s), v)
      invariant s.Occs(v) == old(s.Occs(v)) && s.Occs(-v) == old(s.Occs(-v)) && s.Occs(pivot) == ps
      invariant s.Occs(-pivot) == ns
      invariant (resolvents == 0 || resolvents <= bound) && |counted| == resolvents
      invariant RowsCounted(t0, TableOf(s), ps, ns, i, substitute, resolveGates, v, counted, clauseLimit)
      invariant Strengthened(t0, TableOf(s))
    {
      var c := ps[i];
      assert c in ps;
      ListedOcc(s, pivot, c);
      if s.clauses[c].garbage {
        RowSkipped(t0, TableOf(s), ps, ns, i, substitute, resolveGates, v, counted, clauseLimit);
      } else {
        ghost var t := TableOf(s);
        ListsInRange(s, pivot);
        RowStarts(t0, t, ps, ns, i, substitute, resolveGates, v, counted, clauseLimit);
        resolvents, bounded, counted := CountWith(s, c, pivot, substitute, resolveGates, bound, clauseLimit, resolvents,
                                                  v, t0, ps, i, counted);
        GrownTransitive(t0, t, TableOf(s), v);
        StrengthenedTransitive(t0, t, TableOf(s), v);
        if !bounded {
          if !s.unsat && Unassigned(TableOf(s), v) {
            NowRefused(t0, TableOf(s), ps, ns, substitute, resolveGates, v, elimBound, counted, clauseLimit);
          }
          return false, counted;
        }
        RowEnds(t0, TableOf(s), ps, ns, i, substitute, resolveGates, v, counted, clauseLimit);
      }
    }
    RowsMean(t0, TableOf(s), ps, ns, |ps|, substitute, resolveGates, v, counted, clauseLimit);
    bounded := true;
  }

  lemma ListsInRange(s: Internal, pivot: int)
    requires Ready(s)
    ensures InRange(TableOf(s), s.Occs(pivot), s.Occs(-pivot))
  {
    ListedClauses(s, pivot);
    ListedClauses(s, -pivot);
  }

  lemma NoPairs(t: Table, cs: seq<int>, ds: seq<int>, substitute: bool, resolveGates: bool, v: int, limit: int)
    requires cs == [] || ds == []
    ensures AllCounted(t, cs, ds, substitute, resolveGates, v, {}, limit)
  {
  }

  lemma GarbageCounted(t: Table, c: int, i: int, ds: seq<int>, substitute: bool, resolveGates: bool, v: int,
                       counted: Pairs, limit: int)
    requires 0 <= c < |t.cs| && t.cs[c].garbage
    ensures Counted(t, c, i, ds, substitute, resolveGates, v, counted, limit)
  {
  }

  // ---------------------------------------------------------------- adding resolvents

  lemma AddedIsDone(t: Table, t': Table, clause: Clause, c: int, d: int, v: int, maxVar: nat)
    requires GoodResolvent(t, clause, c, d, v, maxVar)
    requires exists id :: t'.cs == t.cs + [ClauseRecord(clause, false, false, false, id)]
    ensures Done(t', c, d, v)
  {
    var id :| t'.cs == t.cs + [ClauseRecord(clause, false, false, false, id)];
    var n := |t.cs|;
    assert t'.cs[n].Live() && t'.cs[n].lits == clause && t'.cs[c] == t.cs[c] && t'.cs[d] == t.cs[d];
    assert Lits(clause) in Without(t', v);
    forall x | x in Lits(clause) ensures Abs(x) != v && (x in t.cs[c].lits || x in t.cs[d].lits) {
      assert Abs(x) == v ==> Mentions(clause, v);
    }
    CoveredByResolvent(Without(t', v), Lits(clause), t'.cs[c].lits, t'.cs[d].lits, v);
  }

  /** Clauses of limited size were appended, at most one for each of the pairs. */
  ghost predicate AppendedFor(t: Table, t': Table, pairs: Pairs, limit: int) {
    && |t'.cs| <= |t.cs| + |pairs|
    && forall k :: |t.cs| <= k < |t'.cs| ==> |t'.cs[k].lits| <= limit
  }

  lemma AppendedMore(t: Table, t': Table, t'': Table, a: Pairs, b: Pairs, limit: int, v: int)
    requires AppendedFor(t, t', a, limit) && AppendedFor(t', t'', b, limit) && Grown(t', t'', v) && a !! b
    requires |t.cs| <= |t'.cs|
    ensures AppendedFor(t, t'', a + b, limit)
  {
    hide Meaning, Without, RemovedCovered, Equivalent, Weaker;
    forall k | |t.cs| <= k < |t'.cs| ensures |t''.cs[k].lits| <= limit {
      assert OnlyGarbage(t'.cs[k], t''.cs[k]);
    }
  }

  /** A pair appends nothing unless it was counted. */
  lemma PairAppends(t: Table, t': Table, c: int, i: int, ds: seq<int>, j: nat, substitute: bool, resolveGates: bool,
                    v: int,
                    counted: Pairs, limit: int)
    requires j < |ds| && Counted(t, c, i, ds, substitute, resolveGates, v, counted, limit)
    requires if Wanted(t.cs, c, ds[j], substitute, resolveGates) then Appends(t, t', c, ds[j], v) else |t'.cs| == |t.cs|
    ensures AppendedFor(t, t', {(i, j)} * counted, limit)
  {
    hide Open, Rest, Wanted;
    if (i, j) in counted {
      assert {(i, j)} * counted == {(i, j)};
    } else {
      assert {(i, j)} * counted == {};
    }
  }

  /** Adds the resolvents with one clause. */
  method AddWith(s: Internal, c: nat, pivot: int, substitute: bool, resolveGates: bool, ghost v: int,
                 ghost i: nat, ghost counted: Pairs, ghost limit: int) returns (ghost pairs: Pairs)
    requires Ready(s) && !s.unsat && Abs(pivot) == v > 0 && Unassigned(TableOf(s), v) && Listed(s.clauses, c, pivot)
    requires Counted(TableOf(s), c, i, s.Occs(-pivot), substitute, resolveGates, v, counted, limit)
    modifies s`clauses, s`fixedLits, s`occs, s`unsat, s`clauseId
    ensures Ready(s) && Grown(old(TableOf(s)), TableOf(s), v) && Unassigned(TableOf(s), v)
    ensures s.Occs(v) == old(s.Occs(v)) && s.Occs(-v) == old(s.Occs(-v))
    ensures s.unsat ==> Hopeless(TableOf(s))
    ensures !s.unsat ==> AllDone(TableOf(s), c, s.Occs(-pivot), substitute, resolveGates, v)
    ensures AppendedFor(old(TableOf(s)), TableOf(s), pairs, limit) && pairs <= counted
    ensures forall p :: p in pairs ==> p.0 == i
  {
    hide Meaning, Grown, GoodTable, Done, Hopeless, GoodLits, Ready, Listed, AllDone, Unassigned, Counted, AppendedFor,
         Appends, Wanted;
    GrownReflexive(TableOf(s), v);
    var ns := s.Occs(-pivot);
    ghost var t0 := TableOf(s);
    pairs := {};
    NothingAppended(t0, limit);
    NothingToDo(TableOf(s), c, substitute, resolveGates, v);
    assert ns[..0] == [];
    for j := 0 to |ns|
      invariant Ready(s) && Grown(t0, TableOf(s), v) && Unassigned(TableOf(s), v)
      invariant s.Occs(v) == old(s.Occs(v)) && s.Occs(-v) == old(s.Occs(-v)) && s.Occs(-pivot) == ns
      invariant !s.unsat && AllDone(TableOf(s), c, ns[..j], substitute, resolveGates, v)
      invariant Counted(TableOf(s), c, i, ns, substitute, resolveGates, v, counted, limit)
      invariant AppendedFor(t0, TableOf(s), pairs, limit) && pairs <= counted
      invariant forall p :: p in pairs ==> p.0 == i && p.1 < j
    {
      ghost var t := TableOf(s);
      ListedStays(t0, s, c, pivot, v);
      OccsInRange(s, -pivot);
      PrefixMembers(ns, j);
      AddPair(s, c, pivot, ns[j], substitute, resolveGates, v);
      PairAppends(t, TableOf(s), c, i, ns, j, substitute, resolveGates, v, counted, limit);
      TableGrew(t0, t, v);
      AppendedMore(t0, t, TableOf(s), pairs, {(i, j)} * counted, limit, v);
      pairs := pairs + {(i, j)} * counted;
      GrownTransitive(t0, t, TableOf(s), v);
      if s.unsat {
        return;
      }
      ListedRange(t.cs, c, pivot);
      CountedStays(t, TableOf(s), c, i, ns, substitute, resolveGates, v, counted, counted, limit);
      AllDoneStays(t, TableOf(s), c, ns[..j], substitute, resolveGates, v);
      AllDoneStep(TableOf(s), c, ns, j, substitute, resolveGates, v);
    }
    assert ns[..|ns|] == ns;
  }

  lemma NothingAppended(t: Table, limit: int)
    ensures AppendedFor(t, t, {}, limit)
  {
  }

  lemma TableGrew(t: Table, t': Table, v: int)
    requires Grown(t, t', v)
    ensures |t.cs| <= |t'.cs|
  {
  }

  lemma NothingToDo(t: Table, c: int, substitute: bool, resolveGates: bool, v: int)
    ensures AllDone(t, c, [], substitute, resolveGates, v)
  {
  }

  lemma OccsInRange(s: Internal, lit: int)
    requires Ready(s)
    ensures forall i :: i in s.Occs(lit) ==> 0 <= i < |s.clauses|
  {
    ListedClauses(s, lit);
  }

  lemma PrefixMembers(s: seq<int>, n: nat)
    requires n <= |s|
    ensures forall x :: x in s[..n] ==> x in s
  {
  }

  /** One pair of clauses, if it has to be resolved. */
  method AddPair(s: Internal, c: nat, pivot: int, d: int, substitute: bool, resolveGates: bool, ghost v: int)
    requires Ready(s) && !s.unsat && Abs(pivot) == v > 0 && Unassigned(TableOf(s), v) && Listed(s.clauses, c, pivot)
    requires d in s.Occs(-pivot)
    modifies s`clauses, s`fixedLits, s`occs, s`unsat, s`clauseId
    ensures Ready(s) && Grown(old(TableOf(s)), TableOf(s), v) && Unassigned(TableOf(s), v)
    ensures s.Occs(v) == old(s.Occs(v)) && s.Occs(-v) == old(s.Occs(-v))
    ensures s.unsat ==> Hopeless(TableOf(s))
    ensures !s.unsat && Wanted(s.clauses, c, d, substitute, resolveGates) ==> Done(TableOf(s), c, d, v)
    ensures if old(Wanted(s.clauses, c, d, substitute, resolveGates)) then Appends(old(TableOf(s)), TableOf(s), c, d, v)
            else |s.clauses| == |old(s.clauses)|
  {
    hide Meaning, Grown, GoodTable, Done, Hopeless, GoodLits, Ready, Open, Rest;
    ghost var t0 := TableOf(s);
    ListedOcc(s, -pivot, d);
    if s.clauses[d].garbage || (!resolveGates && substitute && s.clauses[c].gate == s.clauses[d].gate) {
      GrownReflexive(t0, v);
      if s.clauses[d].garbage {
        GarbageIsDone(t0, c, d, v);
      }
      return;
    }
    var counts, clause := ResolveClauses(s, c, pivot, d, false, v);
    if counts {
      ghost var t := TableOf(s);
      AddResolvent(s, clause, v);
      AddedIsDone(t, TableOf(s), clause, c, d, v, s.external.maxVar);
      GoodLitsMention(clause, v, s.external.maxVar);
      assert v !in clause && -v !in clause;
    }
  }

  ghost predicate AllPairsDone(t: Table, cs: seq<int>, ds: seq<int>, substitute: bool, resolveGates: bool, v: int) {
    forall c :: c in cs ==> AllDone(t, c, ds, substitute, resolveGates, v)
  }

  lemma AllPairsStay(t: Table, t': Table, cs: seq<int>, ds: seq<int>, substitute: bool, resolveGates: bool, v: int)
    requires AllPairsDone(t, cs, ds, substitute, resolveGates, v) && Grown(t, t', v) && Unassigned(t', v)
    requires (forall c :: c in cs ==> 0 <= c < |t.cs|) && forall d :: d in ds ==> 0 <= d < |t.cs|
    ensures AllPairsDone(t', cs, ds, substitute, resolveGates, v)
  {
    hide AllDone, Grown;
    forall c | c in cs ensures AllDone(t', c, ds, substitute, resolveGates, v) {
      AllDoneStays(t, t', c, ds, substitute, resolveGates, v);
    }
  }

  lemma GarbageAllDone(t: Table, c: int, ds: seq<int>, substitute: bool, resolveGates: bool, v: int)
    requires 0 <= c < |t.cs| && t.cs[c].garbage && forall d :: d in ds ==> 0 <= d < |t.cs|
    ensures AllDone(t, c, ds, substitute, resolveGates, v)
  {
  }

  lemma AllPairsStep(t: Table, cs: seq<int>, i: nat, ds: seq<int>, substitute: bool, resolveGates: bool, v: int)
    requires i < |cs| && AllPairsDone(t, cs[..i], ds, substitute, resolveGates, v)
    requires AllDone(t, cs[i], ds, substitute, resolveGates, v)
    ensures AllPairsDone(t, cs[..i + 1], ds, substitute, resolveGates, v)
  {
    assert cs[..i + 1] == cs[..i] + [cs[i]];
  }

  /** Adds all resolvents on the pivot: no more clauses than pairs were counted. */
  method ElimAddResolvents(s: Internal, pivot: int, substitute: bool, resolveGates: bool, ghost v: int,
                           ghost counted: Pairs, ghost limit: int)
    requires Ready(s) && !s.unsat && Abs(pivot) == v > 0 && Unassigned(TableOf(s), v)
    requires AllCounted(TableOf(s), s.Occs(pivot), s.Occs(-pivot), substitute, resolveGates, v, counted, limit)
    modifies s`clauses, s`fixedLits, s`occs, s`unsat, s`clauseId
    ensures Ready(s) && Grown(old(TableOf(s)), TableOf(s), v) && Unassigned(TableOf(s), v)
    ensures s.Occs(v) == old(s.Occs(v)) && s.Occs(-v) == old(s.Occs(-v))
    ensures s.unsat ==> Hopeless(TableOf(s))
    ensures !s.unsat ==> AllPairsDone(TableOf(s), s.Occs(pivot), s.Occs(-pivot), substitute, resolveGates, v)
    ensures AppendedFor(old(TableOf(s)), TableOf(s), counted, limit)
  {
    hide Meaning, Grown, GoodTable, Done, Hopeless, GoodLits, Ready, Listed, AllDone, Unassigned, Counted, AppendedFor,
         AllCounted;
    GrownReflexive(TableOf(s), v);
    var ps := s.Occs(pivot);
    ghost var ns := s.Occs(-pivot);
    ghost var t0 := TableOf(s);
    ghost var pairs: Pairs := {};
    NothingAppended(t0, limit);
    for i := 0 to |ps|
      invariant Ready(s) && Grown(t0, TableOf(s), v) && Unassigned(TableOf(s), v) && !s.unsat
      invariant s.Occs(v) == old(s.Occs(v)) && s.Occs(-v) == old(s.Occs(-v)) && s.Occs(pivot) == ps
      invariant s.Occs(-pivot) == ns
      invariant AllPairsDone(TableOf(s), ps[..i], ns, substitute, resolveGates, v)
      invariant AllCounted(TableOf(s), ps, ns, substitute, resolveGates, v, counted, limit)
      invariant AppendedFor(t0, TableOf(s), pairs, limit) && pairs <= counted && forall p :: p in pairs ==> p.0 < i
    {
      var c := ps[i];
      assert c in ps;
      ListedOcc(s, pivot, c);
      OccsInRange(s, pivot);
      OccsInRange(s, -pivot);
      PrefixMembers(ps, i);
      if s.clauses[c].garbage {
        GarbageAllDone(TableOf(s), c, ns, substitute, resolveGates, v);
      } else {
        ghost var t := TableOf(s);
        RowCounted(t, ps, i, ns, substitute, resolveGates, v, counted, limit);
        ghost var more := AddWith(s, c, pivot, substitute, resolveGates, v, i, counted, limit);
        TableGrew(t0, t, v);
        AppendedMore(t0, t, TableOf(s), pairs, more, limit, v);
        pairs := pairs + more;
        GrownTransitive(t0, t, TableOf(s), v);
        if s.unsat {
          FewerPairs(t0, TableOf(s), pairs, counted, limit);
          return;
        }
        AllPairsStay(t, TableOf(s), ps[..i], ns, substitute, resolveGates, v);
        AllCountedStay(t, TableOf(s), ps, ns, substitute, resolveGates, v, counted, counted, limit);
      }
      AllPairsStep(TableOf(s), ps, i, ns, substitute, resolveGates, v);
    }
    assert ps[..|ps|] == ps;
    FewerPairs(t0, TableOf(s), pairs, counted, limit);
  }

  lemma RowCounted(t: Table, cs: seq<int>, i: nat, ds: seq<int>, substitute: bool, resolveGates: bool, v: int,
                   counted: Pairs, limit: int)
    requires i < |cs| && AllCounted(t, cs, ds, substitute, resolveGates, v, counted, limit)
    ensures Counted(t, cs[i], i, ds, substitute, resolveGates, v, counted, limit)
  {
  }

  lemma FewerPairs(t: Table, t': Table, pairs: Pairs, counted: Pairs, limit: int)
    requires AppendedFor(t, t', pairs, limit) && pairs <= counted
    ensures AppendedFor(t, t', counted, limit)
  {
    assert counted == pairs + (counted - pairs);
    assert |counted| == |pairs| + |counted - pairs|;
  }

  // ---------------------------------------------------------------- removing the pivot clauses

  /** The live clauses with the literal whose gate flag is one of the given ones. */
  ghost function Side(t: Table, lit: int, gates: set<bool>): Formula {
    set i | 0 <= i < |t.cs| && t.cs[i].Live() && lit in t.cs[i].lits && t.cs[i].gate in gates :: Lits(t.cs[i].lits)
  }

  /** The gate flags of the clauses that are pushed. */
  function PushedGates(substitute: bool): set<bool> {
    if substitute then {true} else {true, false}
  }

  function OtherGates(substitute: bool): set<bool> {
    if substitute then {false} else {}
  }

  /** The listed clauses have become garbage. */
  ghost predicate ListedAreGarbage(cs: seq<ClauseRecord>, ds: seq<ClauseRecord>, os: seq<int>) {
    |ds| == |cs| && forall i :: 0 <= i < |cs| ==> ds[i] == cs[i].(garbage := cs[i].garbage || i in os)
  }

  /** The entries for the listed clauses: one for each live clause with a pushed gate flag. */
  ghost predicate EntriesFor(es: seq<Entry>, cs: seq<ClauseRecord>, os: seq<int>, lit: int, gates: set<bool>) {
    && Common(es, lit)
    && EntryClauses(es) == set i | i in os && 0 <= i < |cs| && !cs[i].garbage && cs[i].gate in gates :: Lits(cs[i].lits)
  }

  lemma EntriesForNothing(cs: seq<ClauseRecord>, lit: int, gates: set<bool>)
    ensures EntriesFor([], cs, [], lit, gates) && ListedAreGarbage(cs, cs, [])
  {
  }

  lemma EntriesForStep(es: seq<Entry>, cs: seq<ClauseRecord>, ds: seq<ClauseRecord>, os: seq<int>, k: nat, lit: int,
                       gates: set<bool>)
    requires k < |os| && 0 <= os[k] < |cs| && lit in cs[os[k]].lits
    requires EntriesFor(es, cs, os[..k], lit, gates) && ListedAreGarbage(cs, ds, os[..k])
    ensures |ds| == |cs| && ds[os[k]].lits == cs[os[k]].lits && ds[os[k]].gate == cs[os[k]].gate
    ensures ds[os[k]].id == cs[os[k]].id
    ensures ds[os[k]].garbage ==> EntriesFor(es, cs, os[..k + 1], lit, gates) && ListedAreGarbage(cs, ds, os[..k + 1])
    ensures !ds[os[k]].garbage ==> ListedAreGarbage(cs, ds[os[k] := ds[os[k]].(garbage := true)], os[..k + 1])
    ensures !ds[os[k]].garbage && cs[os[k]].gate !in gates ==> EntriesFor(es, cs, os[..k + 1], lit, gates)
    ensures !ds[os[k]].garbage && cs[os[k]].gate in gates ==>
              EntriesFor(es + [Entry([lit], cs[os[k]].id, cs[os[k]].lits)], cs, os[..k + 1], lit, gates)
  {
    var c := os[k];
    assert os[..k + 1] == os[..k] + [c];
    if !ds[c].garbage && cs[c].gate in gates {
      var e := Entry([lit], cs[c].id, cs[c].lits);
      EntryClausesAppend(es, e);
    }
  }

  lemma EntryClausesAppend(es: seq<Entry>, e: Entry)
    ensures EntryClauses(es + [e]) == EntryClauses(es) + {Lits(e.clause)}
  {
    forall s | s in EntryClauses(es) + {Lits(e.clause)} ensures s in EntryClauses(es + [e]) {
      assert e in es + [e];
      if x :| x in es && s == Lits(x.clause) {
        assert x in es + [e];
      }
    }
  }

  lemma EntryIsGood(r: ClauseRecord, lit: int, maxVar: nat)
    requires GoodRecord(r, maxVar) && lit in r.lits
    ensures GoodEntry(Entry([lit], r.id, r.lits), maxVar)
  {
  }

  /** Pushes and removes the clauses with one of the two literals and erases their list. */
  method MarkSide(s: Internal, lit: int, substitute: bool) returns (ghost es: seq<Entry>)
    requires Ready(s)
    modifies s`clauses, s`occs, s.external`extension, s.external`entries
    ensures Ready(s) && s.external.entries == old(s.external.entries) + es
    ensures EntriesFor(es, old(s.clauses), old(s.Occs(lit)), lit, PushedGates(substitute))
    ensures ListedAreGarbage(old(s.clauses), s.clauses, old(s.Occs(lit)))
    ensures s.occs == old(s.occs)[lit := []]
  {
    hide EntriesFor, ListedAreGarbage, GoodTable, GoodRecord, GoodEntry, Flatten, PushedGates, Listed;
    ghost var cs := s.clauses;
    var os := s.Occs(lit);
    es := [];
    EntriesForNothing(cs, lit, PushedGates(substitute));
    assert os[..0] == [];
    for k := 0 to |os|
      invariant Ready(s) && s.occs == old(s.occs) && s.Occs(lit) == os
      invariant s.external.entries == old(s.external.entries) + es
      invariant EntriesFor(es, cs, os[..k], lit, PushedGates(substitute)) && ListedAreGarbage(cs, s.clauses, os[..k])
      invariant |s.clauses| == |cs| && forall i :: 0 <= i < |cs| ==> s.clauses[i].lits == cs[i].lits
    {
      var c := os[k];
      assert c in os;
      ListedMeans(s, lit, c);
      EntriesForStep(es, cs, s.clauses, os, k, lit, PushedGates(substitute));
      PushedMeans(substitute, s.clauses[c].gate);
      if s.clauses[c].garbage {
        continue;
      }
      if !substitute || s.clauses[c].gate {
        GoodClauseAt(s, c);
        EntryIsGood(s.clauses[c], lit, s.external.maxVar);
        s.external.PushClauseWithPivot(s.clauses[c].lits, s.clauses[c].id, lit);
        es := es + [Entry([lit], s.clauses[c].id, s.clauses[c].lits)];
      }
      GoodTableGarbage(s.clauses, s.fixedLits, s.occs, s.external.maxVar, c);
      s.MarkGarbage(c);
    }
    assert os[..|os|] == os;
    GoodTableErased(s.clauses, s.fixedLits, s.occs, s.external.maxVar, lit);
    s.occs := s.occs[lit := []];
  }

  lemma PushedMeans(substitute: bool, gate: bool)
    ensures gate in PushedGates(substitute) <==> !substitute || gate
  {
  }

  lemma ListedMeans(s: Internal, lit: int, c: int)
    requires Ready(s) && c in s.Occs(lit)
    ensures 0 <= c < |s.clauses| && lit in s.clauses[c].lits
  {
    ListedClauses(s, lit);
  }

  lemma GoodTableErased(cs: seq<ClauseRecord>, fixedLits: set<int>, occs: map<int, seq<int>>, maxVar: nat, lit: int)
    requires GoodTable(cs, fixedLits, occs, maxVar)
    ensures GoodTable(cs, fixedLits, occs[lit := []], maxVar)
  {
    hide GoodRecord, Listed;
  }

  // ---------------------------------------------------------------- why it is sound

  ghost predicate GoodClauses(t: Table) {
    forall i, x :: 0 <= i < |t.cs| && x in t.cs[i].lits ==> x != 0 && -x !in t.cs[i].lits
  }

  /** Both lists have been marked, one after the other. */
  ghost predicate Marked(t: Table, t': Table, ps: seq<int>, ns: seq<int>) {
    && t'.fixedLits == t.fixedLits && |t'.cs| == |t.cs|
    && forall i :: 0 <= i < |t.cs| ==> t'.cs[i] == t.cs[i].(garbage := t.cs[i].garbage || i in ps || i in ns)
  }

  lemma MarkedIsWithout(t: Table, t': Table, ps: seq<int>, ns: seq<int>, pivot: int, v: int)
    requires ConnectedIn(t.cs, ps, pivot) && ConnectedIn(t.cs, ns, -pivot) && Marked(t, t', ps, ns) && Abs(pivot) == v
    ensures Meaning(t') == Without(t, v)
  {
    forall i | 0 <= i < |t.cs| ensures t'.cs[i].Live() <==> t.cs[i].Live() && !Mentions(t.cs[i].lits, v) {
      if Mentions(t.cs[i].lits, v) {
        assert pivot in t.cs[i].lits || -pivot in t.cs[i].lits;
      }
    }
  }

  lemma SideOfEntries(es: seq<Entry>, t: Table, os: seq<int>, lit: int, gates: set<bool>)
    requires EntriesFor(es, t.cs, os, lit, gates) && ConnectedIn(t.cs, os, lit)
    ensures EntryClauses(es) == Side(t, lit, gates)
  {
    var listed := set i | i in os && 0 <= i < |t.cs| && !t.cs[i].garbage && t.cs[i].gate in gates :: Lits(t.cs[i].lits);
    forall s | s in Side(t, lit, gates) ensures s in listed {
      var i :| 0 <= i < |t.cs| && t.cs[i].Live() && lit in t.cs[i].lits && t.cs[i].gate in gates
               && s == Lits(t.cs[i].lits);
      assert i in os;
    }
  }

  /** Marking the clauses with a literal leaves those with its negation alone. */
  lemma OtherSide(t: Table, t': Table, ps: seq<int>, ns: seq<int>, pivot: int, gates: set<bool>)
    requires ListedAreGarbage(t.cs, t'.cs, ps) && ConnectedIn(t.cs, ps, pivot) && ConnectedIn(t.cs, ns, -pivot)
    requires GoodClauses(t)
    ensures Side(t', -pivot, gates) == Side(t, -pivot, gates) && ConnectedIn(t'.cs, ns, -pivot)
  {
    var lit := -pivot;
    forall i | 0 <= i < |t.cs| && lit in t.cs[i].lits ensures t'.cs[i] == t.cs[i] {
      assert -lit !in t.cs[i].lits;
    }
    forall s | s in Side(t, lit, gates) ensures s in Side(t', lit, gates) {
      var i :| 0 <= i < |t.cs| && t.cs[i].Live() && lit in t.cs[i].lits && t.cs[i].gate in gates
               && s == Lits(t.cs[i].lits);
      assert t'.cs[i] == t.cs[i];
    }
  }

  /** The pairs of the two groups are done. */
  ghost predicate GroupsDone(t: Table, pivot: int, a: set<bool>, b: set<bool>, v: int) {
    forall i, j ::
      (&& 0 <= i < |t.cs| && t.cs[i].Live() && pivot in t.cs[i].lits && t.cs[i].gate in a
       && 0 <= j < |t.cs| && t.cs[j].Live() && -pivot in t.cs[j].lits && t.cs[j].gate in b)
      ==> Done(t, i, j, v)
  }

  lemma BeyondIsWithout(m: Assignment, c: Clause, lit: int, v: int)
    requires Abs(lit) == v && -lit !in c
    ensures Beyond(m, c, v) == HoldsWithout(m, Lits(c), lit)
  {
    if Beyond(m, c, v) {
      var x :| x in c && Abs(x) != v && True(m, x);
      assert x in Lits(c);
    }
    if HoldsWithout(m, Lits(c), lit) {
      var x :| x in Lits(c) && x != lit && True(m, x);
      assert x in c && Abs(x) != v;
    }
  }

  lemma GroupsResolved(t: Table, pivot: int, a: set<bool>, b: set<bool>, v: int)
    requires GroupsDone(t, pivot, a, b, v) && GoodClauses(t) && Abs(pivot) == v
    ensures Resolved(Without(t, v), Side(t, pivot, a), Side(t, -pivot, b), pivot)
  {
    hide Without, Done;
    forall m, c, d | Models(m, Without(t, v)) && c in Side(t, pivot, a) && d in Side(t, -pivot, b)
      ensures ResolventHolds(m, c, d, pivot)
    {
      var i :| 0 <= i < |t.cs| && t.cs[i].Live() && pivot in t.cs[i].lits && t.cs[i].gate in a
               && c == Lits(t.cs[i].lits);
      var j :| 0 <= j < |t.cs| && t.cs[j].Live() && -pivot in t.cs[j].lits && t.cs[j].gate in b
               && d == Lits(t.cs[j].lits);
      assert Done(t, i, j, v);
      DoneMeans(t, i, j, v, m);
      BeyondIsWithout(m, t.cs[i].lits, pivot, v);
      BeyondIsWithout(m, t.cs[j].lits, -pivot, v);
    }
  }

  lemma DoneMeans(t: Table, i: int, j: int, v: int, m: Assignment)
    requires Done(t, i, j, v) && t.cs[i].Live() && t.cs[j].Live() && Models(m, Without(t, v))
    ensures Beyond(m, t.cs[i].lits, v) || Beyond(m, t.cs[j].lits, v)
  {
  }

  lemma GatesDefineSides(t: Table, pivot: int, v: int, resolveGates: bool)
    requires GatesDefine(t, pivot, v, resolveGates) && GoodClauses(t) && Abs(pivot) == v
    ensures Defines(Without(t, v), Side(t, pivot, {true}), Side(t, -pivot, {true}), pivot)
  {
    hide Without;
    forall m | Models(m, Without(t, v))
      ensures !(AllHoldWithout(m, Side(t, pivot, {true}), pivot) && AllHoldWithout(m, Side(t, -pivot, {true}), -pivot))
    {
      SideBeyond(m, t, pivot, v);
      SideBeyond(m, t, -pivot, v);
    }
  }

  lemma SideBeyond(m: Assignment, t: Table, lit: int, v: int)
    requires GoodClauses(t) && Abs(lit) == v
    ensures AllHoldWithout(m, Side(t, lit, {true}), lit) ==> GatesBeyond(m, t, lit, v)
  {
    if AllHoldWithout(m, Side(t, lit, {true}), lit) {
      forall i | LiveGate(t, i, lit) ensures Beyond(m, t.cs[i].lits, v) {
        assert Lits(t.cs[i].lits) in Side(t, lit, {true});
        BeyondIsWithout(m, t.cs[i].lits, lit, v);
      }
    }
  }

  /** The pairs that were resolved, and the hypothesis on gates, cover all pairs but those of
      two clauses that are not pushed. */
  lemma PairsCover(t: Table, ps: seq<int>, ns: seq<int>, pivot: int, substitute: bool, resolveGates: bool, v: int)
    requires AllPairsDone(t, ps, ns, substitute, resolveGates, v)
    requires ConnectedIn(t.cs, ps, pivot) && ConnectedIn(t.cs, ns, -pivot)
    requires substitute ==> GatesDefine(t, pivot, v, resolveGates)
    ensures var g, h := PushedGates(substitute), OtherGates(substitute);
            GroupsDone(t, pivot, g, g, v) && GroupsDone(t, pivot, g, h, v) && GroupsDone(t, pivot, h, g, v)
  {
    hide Done;
    var g, h := PushedGates(substitute), OtherGates(substitute);
    forall i, j | 0 <= i < |t.cs| && t.cs[i].Live() && pivot in t.cs[i].lits
               && 0 <= j < |t.cs| && t.cs[j].Live() && -pivot in t.cs[j].lits
               && (t.cs[i].gate in g || t.cs[j].gate in g)
      ensures Done(t, i, j, v)
    {
      assert i in ps && j in ns && AllDone(t, i, ns, substitute, resolveGates, v);
      if !Wanted(t.cs, i, j, substitute, resolveGates) {
        assert LiveGate(t, i, pivot) && LiveGate(t, j, -pivot);
      }
    }
  }

  lemma SidesArePivotClauses(t: Table, lit: int, gates: set<bool>)
    requires GoodClauses(t)
    ensures PivotClauses(Side(t, lit, gates), lit)
  {
    forall s | s in Side(t, lit, gates) ensures lit in s && -lit !in s && NonZero(s) {
      var i :| 0 <= i < |t.cs| && t.cs[i].Live() && lit in t.cs[i].lits && t.cs[i].gate in gates
               && s == Lits(t.cs[i].lits);
    }
  }

  lemma SidesUnion(t: Table, lit: int, substitute: bool)
    ensures Side(t, lit, PushedGates(substitute)) + Side(t, lit, OtherGates(substitute)) == Side(t, lit, {true, false})
  {
  }

  lemma WithoutIsFree(t: Table, pivot: int, v: int)
    requires GoodClauses(t) && Unassigned(t, v) && 0 !in t.fixedLits && Abs(pivot) == v
    ensures FreeOf(Without(t, v), pivot) && NonZeroFormula(Without(t, v)) && NonZeroFormula(Meaning(t))
  {
    forall s | s in Without(t, v) ensures pivot !in s && -pivot !in s && NonZero(s) {
      if i :| 0 <= i < |t.cs| && t.cs[i].Live() && !Mentions(t.cs[i].lits, v) && s == Lits(t.cs[i].lits) {
        assert forall x :: x in s ==> x in t.cs[i].lits;
      }
    }
  }

  lemma MeaningSplits(t: Table, pivot: int, v: int)
    requires Abs(pivot) == v
    ensures Meaning(t) <= Without(t, v) + Side(t, pivot, {true, false}) + Side(t, -pivot, {true, false})
    ensures Without(t, v) <= Meaning(t)
  {
    forall s | s in Meaning(t)
      ensures s in Without(t, v) + Side(t, pivot, {true, false}) + Side(t, -pivot, {true, false})
    {
      if i :| 0 <= i < |t.cs| && t.cs[i].Live() && s == Lits(t.cs[i].lits) {
        if Mentions(t.cs[i].lits, v) {
          assert pivot in t.cs[i].lits || -pivot in t.cs[i].lits;
        }
      }
    }
  }

  /** Pushing the pushed clauses and dropping the others is an elimination step. */
  lemma EliminationApplies(original: Formula, t: Table, ps: seq<int>, ns: seq<int>, ep: seq<Entry>, en: seq<Entry>,
                           pivot: int, substitute: bool, resolveGates: bool, v: int)
    requires Abs(pivot) == v > 0 && GoodClauses(t) && Unassigned(t, v) && 0 !in t.fixedLits
    requires ConnectedIn(t.cs, ps, pivot) && ConnectedIn(t.cs, ns, -pivot)
    requires AllPairsDone(t, ps, ns, substitute, resolveGates, v)
    requires substitute ==> GatesDefine(t, pivot, v, resolveGates)
    requires Common(ep, pivot) && EntryClauses(ep) == Side(t, pivot, PushedGates(substitute))
    requires Common(en, -pivot) && EntryClauses(en) == Side(t, -pivot, PushedGates(substitute))
    ensures var h := OtherGates(substitute);
            Applies(Eliminate(ep, en, Side(t, pivot, h), Side(t, -pivot, h), pivot), original, Meaning(t), Without(t,
                      v))
  {
    hide Meaning, Without, Side, Common, EntryClauses, AllPairsDone, GatesDefine, ConnectedIn, GoodClauses, GroupsDone,
         Resolved, Defines, FreeOf, PivotClauses, NonZeroFormula, PushedGates, OtherGates, Weaker;
    var g, h := PushedGates(substitute), OtherGates(substitute);
    PairsCover(t, ps, ns, pivot, substitute, resolveGates, v);
    GroupsResolved(t, pivot, g, g, v);
    GroupsResolved(t, pivot, g, h, v);
    GroupsResolved(t, pivot, h, g, v);
    SidesUnion(t, pivot, substitute);
    SidesUnion(t, -pivot, substitute);
    SidesArePivotClauses(t, pivot, {true, false});
    SidesArePivotClauses(t, -pivot, {true, false});
    WithoutIsFree(t, pivot, v);
    MeaningSplits(t, pivot, v);
    SubsetIsWeaker(Meaning(t), Without(t, v));
    if substitute {
      GatesDefineSides(t, pivot, v, resolveGates);
      PushedWith(substitute);
    } else {
      NoOtherSides(t, pivot);
    }
  }

  lemma PushedWith(substitute: bool)
    ensures substitute ==> PushedGates(substitute) == {true}
  {
  }

  lemma NoOtherSides(t: Table, pivot: int)
    ensures Side(t, pivot, OtherGates(false)) + Side(t, -pivot, OtherGates(false)) == {}
  {
  }

  lemma SubsetIsWeaker(f: Formula, g: Formula)
    requires g <= f
    ensures Weaker(f, g)
  {
    forall m | Models(m, f) ensures Models(m, g) {
      ModelsSubset(m, g, f);
    }
  }

  /** Elimination keeps what the solver promises. */
  lemma EliminationKeeps(original: Formula, t: Table, ps: seq<int>, ns: seq<int>, stack: seq<Entry>, ep: seq<Entry>,
                         en: seq<Entry>,
                         pivot: int, substitute: bool, resolveGates: bool, v: int)
    requires Abs(pivot) == v > 0 && GoodClauses(t) && Unassigned(t, v) && 0 !in t.fixedLits
    requires ConnectedIn(t.cs, ps, pivot) && ConnectedIn(t.cs, ns, -pivot)
    requires AllPairsDone(t, ps, ns, substitute, resolveGates, v)
    requires substitute ==> GatesDefine(t, pivot, v, resolveGates)
    requires Common(ep, pivot) && EntryClauses(ep) == Side(t, pivot, PushedGates(substitute))
    requires Common(en, -pivot) && EntryClauses(en) == Side(t, -pivot, PushedGates(substitute))
    requires Reconstructs(original, State(Meaning(t), stack))
    ensures Reconstructs(original, State(Without(t, v), stack + ep + en))
  {
    hide Meaning, Without, Side, Common, EntryClauses, AllPairsDone, GatesDefine, ConnectedIn, GoodClauses,
         Reconstructs, Applies;
    EliminationApplies(original, t, ps, ns, ep, en, pivot, substitute, resolveGates, v);
    var h := OtherGates(substitute);
    var tech := Eliminate(ep, en, Side(t, pivot, h), Side(t, -pivot, h), pivot);
    assert stack + ep + en == stack + (ep + en);
    NextKeeps(tech, original, State(Meaning(t), stack), State(Without(t, v), stack + ep + en));
  }

  // ---------------------------------------------------------------- the whole step

  /** Pushes and removes the clauses with the pivot, the positive ones first. */
  method MarkEliminatedClausesAsGarbage(s: Internal, pivot: int, substitute: bool, ghost resolveGates: bool,
                                        ghost v: int)
    requires Ready(s) && s.Sound() && Abs(pivot) == v > 0 && Unassigned(TableOf(s), v)
    requires s.Connected(pivot) && s.Connected(-pivot)
    requires AllPairsDone(TableOf(s), s.Occs(pivot), s.Occs(-pivot), substitute, resolveGates, v)
    requires substitute ==> GatesDefine(TableOf(s), pivot, v, resolveGates)
    modifies s`clauses, s`occs, s.external`extension, s.external`entries
    ensures Ready(s) && s.Sound()
    ensures FreeOf(Meaning(TableOf(s)), pivot) && Meaning(TableOf(s)) == Without(old(TableOf(s)), v)
    ensures s.Occs(pivot) == [] && s.Occs(-pivot) == []
    ensures |s.clauses| == |old(s.clauses)|
    ensures forall k :: 0 <= k < |s.clauses| ==> s.clauses[k].lits == old(s.clauses)[k].lits
  {
    hide Meaning, Without, Side, EntryClauses, AllPairsDone, GatesDefine, ConnectedIn, GoodClauses, Reconstructs,
         GoodTable,
         PushedGates, ListedAreGarbage, Common, FormulaOf, Unassigned, FreeOf, NonZeroFormula;
    ghost var t0, ps, ns, stack := TableOf(s), s.Occs(pivot), s.Occs(-pivot), s.external.entries;
    ReadyFacts(s);
    ghost var ep := MarkSide(s, pivot, substitute);
    ghost var t1 := TableOf(s);
    SideOfEntries(ep, t0, ps, pivot, PushedGates(substitute));
    OtherSide(t0, t1, ps, ns, pivot, PushedGates(substitute));
    assert s.Occs(-pivot) == ns;
    ghost var en := MarkSide(s, -pivot, substitute);
    SideOfEntries(en, t1, ns, -pivot, PushedGates(substitute));
    MarkedTwice(t0, t1, TableOf(s), ps, ns);
    MarkedLits(t0, TableOf(s), ps, ns);
    MarkedIsWithout(t0, TableOf(s), ps, ns, pivot, v);
    MeaningIs(t0);
    MeaningIs(TableOf(s));
    EliminationKeeps(s.original, t0, ps, ns, stack, ep, en, pivot, substitute, resolveGates, v);
    WithoutIsFree(t0, pivot, v);
  }

  lemma MeaningIs(t: Table)
    ensures Meaning(t) == FormulaOf(t.cs, t.fixedLits)
  {
  }

  lemma ReadyFacts(s: Internal)
    requires Ready(s)
    ensures GoodClauses(TableOf(s)) && 0 !in s.fixedLits
  {
    forall i | 0 <= i < |s.clauses| ensures GoodRecord(s.clauses[i], s.external.maxVar) { }
  }

  lemma MarkedLits(t: Table, t': Table, ps: seq<int>, ns: seq<int>)
    requires Marked(t, t', ps, ns)
    ensures |t'.cs| == |t.cs| && forall k :: 0 <= k < |t.cs| ==> t'.cs[k].lits == t.cs[k].lits
  {
  }

  lemma MarkedTwice(t0: Table, t1: Table, t2: Table, ps: seq<int>, ns: seq<int>)
    requires ListedAreGarbage(t0.cs, t1.cs, ps) && ListedAreGarbage(t1.cs, t2.cs, ns)
    requires t0.fixedLits == t1.fixedLits == t2.fixedLits
    ensures Marked(t0, t2, ps, ns)
  {
  }

  /** What counting left behind: the clauses that were there, some of them garbage, and strengthened ones. */
  ghost predicate CountedFrom(t: Table, counting: Table, v: int) {
    Grown(t, counting, v) && Strengthened(t, counting)
  }

  /** The clauses added after counting are limited in number and size, and the others have kept their literals. */
  ghost predicate GrowthIsLimited(counting: Table, t': Table, more: int, limit: int) {
    && |counting.cs| <= |t'.cs| && (forall k :: 0 <= k < |counting.cs| ==> t'.cs[k].lits == counting.cs[k].lits)
    && (|t'.cs| != |counting.cs| ==> |t'.cs| <= |counting.cs| + more)
    && forall k :: |counting.cs| <= k < |t'.cs| ==> |t'.cs[k].lits| <= limit
  }

  /** Tries to eliminate a variable: resolvents are counted, then added, then the clauses with
      the variable are pushed and removed.  Given that the gate clauses define the pivot, every
      model of what is left extends to one of the given clauses, whatever happens to gate
      clauses on the way.  The table after counting is returned as well. */
  method TryToEliminate(s: Internal, pivot: int, substitute: bool, resolveGates: bool, elimBound: int, clauseLimit: int)
    returns (eliminated: bool, ghost counting: Table)
    requires Ready(s) && s.Sound() && !s.unsat && pivot != 0 && s.Val(pivot) == 0
    requires s.Connected(pivot) && s.Connected(-pivot)
    requires substitute ==> GatesDefine(TableOf(s), pivot, Abs(pivot), resolveGates)
    modifies s`clauses, s`fixedLits, s`occs, s`unsat, s`clauseId, s.external`extension, s.external`entries
    ensures Ready(s) && s.Sound()
    ensures s.unsat ==> Hopeless(TableOf(s)) && !Satisfiable(s.original) && !eliminated
    ensures eliminated ==> FreeOf(Meaning(TableOf(s)), pivot) && s.Occs(pivot) == [] && s.Occs(-pivot) == []
    ensures CountedFrom(old(TableOf(s)), counting, Abs(pivot))
    ensures eliminated ==>
              GrowthIsLimited(counting, TableOf(s), |old(s.Occs(pivot))| + |old(s.Occs(-pivot))| + elimBound,
                        clauseLimit)
    ensures !eliminated ==> s.external.entries == old(s.external.entries)
                            && Equivalent(Meaning(old(TableOf(s))), Meaning(TableOf(s)))
    ensures !eliminated && !s.unsat && Unassigned(TableOf(s), Abs(pivot)) ==>
              Refused(old(TableOf(s)), TableOf(s), old(s.Occs(pivot)), old(s.Occs(-pivot)), substitute, resolveGates,
                      Abs(pivot), elimBound, clauseLimit)
  {
    hide Meaning, Grown, GoodTable, Done, Hopeless, Ready, AllPairsDone, Unassigned, ConnectedIn, Reconstructs,
         FormulaOf, Equivalent, FreeOf, GatesDefine, Satisfiable, Strengthened, GrowthIsLimited, Refused,
         RightlyCounted, AllCounted;
    ghost var v: int := Abs(pivot);
    ghost var t0 := TableOf(s);
    assert Unassigned(t0, v) by { ValIsUnassigned(s, pivot); }
    var bounded, counted := ElimResolventsAreBounded(s, pivot, substitute, resolveGates, elimBound, clauseLimit, v);
    counting := TableOf(s);
    AfterGrowth(s, t0, counting, v);
    if !bounded {
      return false, counting;
    }
    ElimAddResolvents(s, pivot, substitute, resolveGates, v, counted, clauseLimit);
    ghost var t := TableOf(s);
    GrownTransitive(t0, counting, t, v);
    AfterGrowth(s, t0, t, v);
    if s.unsat {
      return false, counting;
    }
    GrownKeepsConnected(t0, t, v, s.Occs(pivot), pivot);
    GrownKeepsConnected(t0, t, v, s.Occs(-pivot), -pivot);
    if substitute {
      GatesStay(t0, t, pivot, v, resolveGates);
    }
    ghost var more := |s.Occs(v)| + |s.Occs(-v)| + elimBound;
    MarkEliminatedClausesAsGarbage(s, pivot, substitute, resolveGates, v);
    LimitedGrowth(counting, t, TableOf(s), counted, more, clauseLimit, v);
    eliminated := true;
  }

  lemma LimitedGrowth(counting: Table, t: Table, t': Table, pairs: Pairs, more: int, limit: int, v: int)
    requires AppendedFor(counting, t, pairs, limit) && Grown(counting, t, v) && (pairs == {} || |pairs| <= more)
    requires |t'.cs| == |t.cs| && forall k :: 0 <= k < |t.cs| ==> t'.cs[k].lits == t.cs[k].lits
    ensures GrowthIsLimited(counting, t', more, limit)
  {
    hide Meaning, Without, RemovedCovered, Equivalent, Weaker;
    forall k | 0 <= k < |counting.cs| ensures t.cs[k].lits == counting.cs[k].lits {
      assert OnlyGarbage(counting.cs[k], t.cs[k]);
    }
  }

  lemma GatesDefineBoth(t: Table, pivot: int, v: int, resolveGates: bool)
    requires GatesDefine(t, pivot, v, resolveGates)
    ensures GatesDefine(t, -pivot, v, resolveGates)
  {
    hide Without, Done, GatesBeyond;
    if !resolveGates {
      forall i, j | LiveGate(t, i, -pivot) && LiveGate(t, j, pivot) ensures Done(t, i, j, v) {
        DoneSymmetric(t, j, i, v);
      }
    }
  }

  method Flush(s: Internal, lit: int)
    requires Ready(s) && s.Connected(lit)
    modifies s`occs
    ensures Ready(s) && s.Connected(lit) && s.Occs(lit) == Filter(old(s.Occs(lit)), s.clauses)
    ensures forall l :: l != lit ==> s.Occs(l) == old(s.Occs(l))
  {
    hide GoodTable, ConnectedIn, Filter;
    ListedClauses(s, lit);
    FlushedConnected(s.clauses, s.Occs(lit), lit);
    FlushedGood(s.clauses, s.fixedLits, s.occs, s.external.maxVar, lit);
    s.FlushOccs(lit);
  }

  lemma FlushedGood(cs: seq<ClauseRecord>, fixedLits: set<int>, occs: map<int, seq<int>>, maxVar: nat, lit: int)
    requires GoodTable(cs, fixedLits, occs, maxVar)
    ensures GoodTable(cs, fixedLits, occs[lit := Filter(if lit in occs then occs[lit] else [], cs)], maxVar)
  {
    var os := if lit in occs then occs[lit] else [];
    assert forall i :: i in Filter(os, cs) ==> i in os;
  }

  /** Flushes the occurrences of a variable and tries to eliminate it on the literal with fewer of them, unless
      the other one has too many. */
  method TryToEliminateVariable(s: Internal, idx: int, substitute: bool, resolveGates: bool, elimBound: int,
                                clauseLimit: int, occLimit: int)
    returns (eliminated: bool, pivot: int, ghost counting: Table)
    requires Ready(s) && s.Sound() && !s.unsat && idx != 0 && s.Val(idx) == 0 && s.Connected(idx) && s.Connected(-idx)
    requires substitute ==> GatesDefine(TableOf(s), idx, Abs(idx), resolveGates)
    modifies s`clauses, s`fixedLits, s`occs, s`unsat, s`clauseId, s.external`extension, s.external`entries
    ensures Ready(s) && s.Sound()
    ensures s.unsat ==> Hopeless(TableOf(s)) && !Satisfiable(s.original) && !eliminated
    ensures eliminated ==> FreeOf(Meaning(TableOf(s)), idx) && s.Occs(idx) == [] && s.Occs(-idx) == []
    ensures !eliminated ==> s.external.entries == old(s.external.entries)
                            && Equivalent(Meaning(old(TableOf(s))), Meaning(TableOf(s)))
    ensures CountedFrom(old(TableOf(s)), counting, Abs(idx))
    ensures pivot == idx || pivot == -idx
    ensures var pos, neg := |Filter(old(s.Occs(pivot)), old(s.clauses))|, |Filter(old(s.Occs(-pivot)), old(s.clauses))|;
            && pos <= neg
            && (eliminated ==> GrowthIsLimited(counting, TableOf(s), pos + neg + elimBound, clauseLimit))
            && (pos > 0 && neg > occLimit ==> !eliminated && TableOf(s) == old(TableOf(s)))
            && (!eliminated && !s.unsat && Unassigned(TableOf(s), Abs(idx)) && !(pos > 0 && neg > occLimit) ==>
                  Refused(old(TableOf(s)), TableOf(s), Filter(old(s.Occs(pivot)), old(s.clauses)),
                          Filter(old(s.Occs(-pivot)), old(s.clauses)), substitute, resolveGates, Abs(idx), elimBound,
                          clauseLimit))
  {
    hide Refused, Unassigned, Meaning, Grown, GoodTable, Done, Hopeless, Ready, AllPairsDone, ConnectedIn,
         Reconstructs, FormulaOf, FreeOf, Equivalent, GatesDefine, Satisfiable, Strengthened, GrowthIsLimited,
         CountedFrom, Filter;
    NothingCountedFrom(TableOf(s), Abs(idx));
    counting := TableOf(s);
    Flush(s, idx);
    Flush(s, -idx);
    pivot := idx;
    if |s.Occs(idx)| > |s.Occs(-idx)| {
      pivot := -idx;
      if substitute {
        GatesDefineBoth(TableOf(s), idx, Abs(idx), resolveGates);
      }
    }
    if |s.Occs(pivot)| > 0 && |s.Occs(-pivot)| > occLimit {
      return false, pivot, counting;
    }
    eliminated, counting := TryToEliminate(s, pivot, substitute, resolveGates, elimBound, clauseLimit);
    FreeOfBoth(Meaning(TableOf(s)), pivot);
  }

  lemma NothingCountedFrom(t: Table, v: int)
    ensures CountedFrom(t, t, v) && Equivalent(Meaning(t), Meaning(t))
  {
    GrownReflexive(t, v);
  }

  lemma FreeOfBoth(f: Formula, pivot: int)
    ensures FreeOf(f, pivot) <==> FreeOf(f, -pivot)
  {
  }

  lemma ValIsUnassigned(s: Internal, pivot: int)
    requires s.Val(pivot) == 0
    ensures Unassigned(TableOf(s), Abs(pivot))
  {
  }

  lemma AfterGrowth(s: Internal, t: Table, t': Table, v: int)
    requires Grown(t, t', v) && t' == TableOf(s)
    requires Reconstructs(s.original, State(FormulaOf(t.cs, t.fixedLits), s.external.entries))
    ensures s.Sound() && Equivalent(Meaning(t), Meaning(t'))
    ensures Hopeless(t') ==> !Satisfiable(s.original)
  {
    GrownKeepsSound(s.original, t, t', v, s.external.entries);
  }
}
