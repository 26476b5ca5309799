/** Blocked clause elimination. */
module Blocking {
  import opened Cnf
  import opened Lists
  import opened Extension
  import opened Reconstruction
  import opened InternalSolver

  // ---------------------------------------------------------------- specification

  /** The resolvent of `c` and `d` on `lit` (in `c`) is tautological. */
  ghost predicate Clashes(c: Clause, d: Clause, lit: int) {
    exists x :: x in d && x != -lit && -x in c
  }

  /** All resolvents of `c` with the listed clauses are tautological. */
  ghost predicate BlockedBy(cs: seq<ClauseRecord>, os: seq<int>, c: Clause, lit: int) {
    forall k :: k in os && 0 <= k < |cs| ==> Clashes(c, cs[k].lits, lit)
  }

  function MoveToFront<T>(s: seq<T>, k: nat): seq<T>
    requires k < |s|
  {
    [s[k]] + s[..k] + s[k + 1..]
  }

  ghost predicate MovedToFront(r: seq<int>, s: seq<int>) {
    exists k: nat :: k < |s| && r == MoveToFront(s, k)
  }

  lemma MoveToFrontMultiset<T>(s: seq<T>, k: nat)
    requires k < |s|
    ensures multiset(MoveToFront(s, k)) == multiset(s)
  {
    assert s == s[..k] + [s[k]] + s[k + 1..];
  }

  /** The state of a move-to-front search after `l` steps: the elements seen so far are
      shifted by one position and a blank is at the front. */
  function Shifted(s: seq<int>, l: nat, blank: int): seq<int>
    requires l <= |s|
  {
    if l == 0 then s else [blank] + s[..l - 1] + s[l..]
  }

  function Previous(s: seq<int>, l: nat, blank: int): int
    requires l <= |s|
  {
    if l == 0 then blank else s[l - 1]
  }

  lemma ShiftStep(s: seq<int>, l: nat, blank: int)
    requires l < |s|
    ensures Shifted(s, l, blank)[l] == s[l]
    ensures Shifted(s, l, blank)[l := Previous(s, l, blank)] == Shifted(s, l + 1, blank)
  {
  }

  lemma ShiftBack(s: seq<int>, l: nat, blank: int)
    requires l < |s|
    ensures Shifted(s, l + 1, blank)[l] == Previous(s, l, blank)
    ensures Shifted(s, l + 1, blank)[l := s[l]] == Shifted(s, l, blank)
  {
    var a, b := Shifted(s, l + 1, blank), Shifted(s, l, blank);
    assert |a| == |b| == |s|;
    forall i | 0 <= i < |s| ensures a[l := s[l]][i] == b[i] { }
  }

  lemma ShiftFound(s: seq<int>, l: nat, blank: int)
    requires l < |s|
    ensures Shifted(s, l + 1, blank)[0 := s[l]] == MoveToFront(s, l)
  {
  }

  /** The first literal of `d` other than `skip` whose negation occurs in `c`. */
  ghost predicate FirstClash(d: Clause, k: nat, skip: int, c: set<int>) {
    && k < |d| && d[k] != skip && SignIn(c, d[k]) < 0
    && forall j :: 0 <= j < k ==> d[j] == skip || SignIn(c, d[j]) >= 0
  }

  lemma ClashesSameOrder(c: Clause, d: Clause, c': Clause, d': Clause, lit: int)
    requires multiset(c) == multiset(c') && multiset(d) == multiset(d')
    ensures Clashes(c, d, lit) == Clashes(c', d', lit)
  {
    SameMultisetSameLits(c, c');
    SameMultisetSameLits(d, d');
  }

  lemma BlockedBySameOrder(cs: seq<ClauseRecord>, ds: seq<ClauseRecord>, os: seq<int>, c: Clause, c': Clause, lit: int)
    requires |cs| == |ds| && forall i :: 0 <= i < |cs| ==> multiset(cs[i].lits) == multiset(ds[i].lits)
    requires multiset(c) == multiset(c')
    ensures BlockedBy(cs, os, c, lit) == BlockedBy(ds, os, c', lit)
  {
    forall k | k in os && 0 <= k < |cs| ensures Clashes(c, cs[k].lits, lit) == Clashes(c', ds[k].lits, lit) {
      ClashesSameOrder(c, cs[k].lits, c', ds[k].lits, lit);
    }
  }

  lemma SameUpToOrderTransitive(cs: seq<ClauseRecord>, ds: seq<ClauseRecord>, es: seq<ClauseRecord>)
    requires SameUpToOrder(cs, ds) && SameUpToOrder(ds, es)
    ensures SameUpToOrder(cs, es)
  {
  }

  lemma BlockedFormula(cs: seq<ClauseRecord>, fixedLits: set<int>, c: Clause, lit: int, os: seq<int>)
    requires -lit !in fixedLits
    requires forall i :: 0 <= i < |cs| && cs[i].Live() && -lit in cs[i].lits ==> i in os
    requires BlockedBy(cs, os, c, lit)
    ensures Blocked(FormulaOf(cs, fixedLits), Lits(c), lit)
  {
    forall d | d in FormulaOf(cs, fixedLits) && -lit in d
      ensures exists x :: x in d && x != -lit && -x in Lits(c)
    {
      var i :| 0 <= i < |cs| && cs[i].Live() && d == Lits(cs[i].lits);
      assert i in os;
      assert Clashes(c, cs[i].lits, lit);
      var x :| x in cs[i].lits && x != -lit && -x in c;
      assert x in d && -x in Lits(c);
    }
  }

  /** Removing a blocked clause and pushing it keeps what the solver promises. */
  lemma BlockKeeps(original: Formula, cs: seq<ClauseRecord>, fixedLits: set<int>, stack: seq<Entry>,
                   c: nat, lit: int, os: seq<int>, maxVar: nat)
    requires Reconstructs(original, State(FormulaOf(cs, fixedLits), stack))
    requires (forall i :: 0 <= i < |cs| ==> GoodRecord(cs[i], maxVar)) && 0 !in fixedLits
    requires c < |cs| && lit in cs[c].lits && -lit !in fixedLits
    requires forall i :: 0 <= i < |cs| && cs[i].Live() && -lit in cs[i].lits ==> i in os
    requires BlockedBy(cs, os, cs[c].lits, lit)
    ensures Reconstructs(original, State(FormulaOf(cs[c := cs[c].(garbage := true)], fixedLits),
                                         stack + [Entry([lit], cs[c].id, cs[c].lits)]))
  {
    hide FormulaOf, Reconstructs, Blocked, NonZeroFormula, BlockedBy;
    var ds := cs[c := cs[c].(garbage := true)];
    var f, g := FormulaOf(cs, fixedLits), FormulaOf(ds, fixedLits);
    GarbageFormula(cs, fixedLits, c);
    GoodFormulaIsNonZero(cs, fixedLits, maxVar);
    assert forall i :: 0 <= i < |ds| ==> GoodRecord(ds[i], maxVar);
    GoodFormulaIsNonZero(ds, fixedLits, maxVar);
    BlockedSameClauses(cs, ds, os, cs[c].lits, lit);
    BlockedFormula(ds, fixedLits, cs[c].lits, lit, os);
    var t := Block(cs[c].lits, lit, cs[c].id);
    NextKeeps(t, original, State(f, stack), State(g, stack + Pushed(t)));
  }

  lemma BlockedSameClauses(cs: seq<ClauseRecord>, ds: seq<ClauseRecord>, os: seq<int>, c: Clause, lit: int)
    requires BlockedBy(cs, os, c, lit) && |cs| == |ds| && forall i :: 0 <= i < |cs| ==> cs[i].lits == ds[i].lits
    ensures BlockedBy(ds, os, c, lit)
  {
    forall k | k in os && 0 <= k < |ds| ensures Clashes(c, ds[k].lits, lit) {
      assert Clashes(c, cs[k].lits, lit);
    }
  }

  // ---------------------------------------------------------------- move-to-front searches

  /** Looks for a literal other than `skip` whose negation is marked and moves the first one
      to the front; the order is kept if there is none. */
  method ClashToFront(d: Clause, skip: int, marks: set<int>) returns (lits: Clause, found: bool)
    ensures found <==> exists k: nat :: FirstClash(d, k, skip, marks)
    ensures found ==> exists k: nat :: FirstClash(d, k, skip, marks) && lits == MoveToFront(d, k)
    ensures !found ==> lits == d && forall j :: 0 <= j < |d| ==> d[j] == skip || SignIn(marks, d[j]) >= 0
  {
    hide Shifted, Previous, MoveToFront;
    lits := d;
    var prevOther := 0;
    var l := 0;
    found := false;
    ShiftStart(d, 0);
    while l < |lits|
      invariant 0 <= l <= |lits| == |d| && !found
      invariant prevOther == Previous(d, l, 0) && lits == Shifted(d, l, 0)
      invariant forall k :: 0 <= k < l ==> d[k] == skip || SignIn(marks, d[k]) >= 0
    {
      ShiftStep(d, l, 0);
      ShiftFound(d, l, 0);
      var other := lits[l];
      lits := lits[l := prevOther];
      prevOther := other;
      if other != skip && SignIn(marks, other) < 0 {
        lits := lits[0 := other];
        found := true;
        assert FirstClash(d, l, skip, marks);
        break;
      }
      l := l + 1;
      PreviousIs(d, l, 0);
    }
    if !found {
      lits := Unshift(lits, l, prevOther, d, 0);
    }
  }

  /** Undoes the shifts of an unsuccessful search. */
  method Unshift(s: seq<int>, end: nat, last: int, ghost orig: seq<int>, ghost blank: int) returns (r: seq<int>)
    requires end <= |orig| && s == Shifted(orig, end, blank) && last == Previous(orig, end, blank)
    ensures r == orig
  {
    hide Shifted, Previous, MoveToFront;
    var l, prev := end, last;
    r := s;
    ShiftedLength(orig, end, blank);
    while l != 0
      invariant 0 <= l <= |r| == |orig|
      invariant prev == Previous(orig, l, blank) && r == Shifted(orig, l, blank)
    {
      l := l - 1;
      ShiftBack(orig, l, blank);
      PreviousIs(orig, l + 1, blank);
      var other := r[l];
      r := r[l := prev];
      prev := other;
    }
    ShiftStart(orig, blank);
  }

  lemma ShiftedLength(s: seq<int>, l: nat, blank: int)
    requires l <= |s|
    ensures |Shifted(s, l, blank)| == |s|
  {
  }

  lemma ShiftStart(s: seq<int>, blank: int)
    ensures Shifted(s, 0, blank) == s && Previous(s, 0, blank) == blank
  {
  }

  lemma PreviousIs(s: seq<int>, l: nat, blank: int)
    requires 0 < l <= |s|
    ensures Previous(s, l, blank) == s[l - 1] && |Shifted(s, l, blank)| == |s|
  {
  }

  /** The same search in a clause of the table, while the literals of `c` are marked. */
  method ClashInClause(s: Internal, d: nat, skip: int, ghost c: Clause) returns (found: bool)
    requires d < |s.clauses| && s.marks == Lits(c) && forall x :: x in c ==> -x !in c
    modifies s`clauses
    ensures found <==> exists x :: x in old(s.clauses)[d].lits && x != skip && -x in c
    ensures SameUpToOrder(old(s.clauses), s.clauses)
    ensures !found ==> s.clauses == old(s.clauses)
    ensures forall i :: 0 <= i < |s.clauses| && i != d ==> s.clauses[i] == old(s.clauses)[i]
    ensures found ==> s.clauses[d].lits != [] && -s.clauses[d].lits[0] in c
  {
    hide MoveToFront, FirstClash;
    ghost var lits0 := s.clauses[d].lits;
    var lits;
    lits, found := ClashToFront(s.clauses[d].lits, skip, s.marks);
    ClashFound(lits0, lits, skip, c, found);
    s.clauses := s.clauses[d := s.clauses[d].(lits := lits)];
  }

  lemma ClashFound(d: Clause, d': Clause, skip: int, c: Clause, found: bool)
    requires forall x :: x in c ==> -x !in c
    requires found ==> exists k: nat :: FirstClash(d, k, skip, Lits(c)) && d' == MoveToFront(d, k)
    requires !found ==> d' == d && forall j :: 0 <= j < |d| ==> d[j] == skip || SignIn(Lits(c), d[j]) >= 0
    ensures found <==> exists x :: x in d && x != skip && -x in c
    ensures multiset(d) == multiset(d')
    ensures found ==> d' != [] && -d'[0] in c
  {
    if found {
      var k: nat :| FirstClash(d, k, skip, Lits(c)) && d' == MoveToFront(d, k);
      hide MoveToFront, FirstClash;
      FirstClashMeans(d, k, skip, c);
      MoveToFrontMultiset(d, k);
      FrontIs(d, k);
      assert d[k] in d;
    } else {
      NoClash(d, skip, c);
    }
  }

  lemma FirstClashMeans(d: Clause, k: nat, skip: int, c: Clause)
    requires FirstClash(d, k, skip, Lits(c))
    ensures k < |d| && d[k] != skip && -d[k] in c
  {
  }

  lemma NoClash(d: Clause, skip: int, c: Clause)
    requires forall x :: x in c ==> -x !in c
    requires forall j :: 0 <= j < |d| ==> d[j] == skip || SignIn(Lits(c), d[j]) >= 0
    ensures forall x :: x in d && x != skip ==> -x !in c
  {
    forall x | x in d && x != skip ensures -x !in c {
      var j :| 0 <= j < |d| && d[j] == x;
      assert x in c ==> -x !in c;
      assert -x in c ==> -(-x) !in c;
    }
  }

  lemma FrontIs(d: Clause, k: nat)
    requires k < |d|
    ensures |MoveToFront(d, k)| == |d| && MoveToFront(d, k)[0] == d[k]
  {
  }

  /** The scan of the occurrence list: it stops at the first clause that does not clash with
      the marked clause and moves it to the front, otherwise it restores the order. */
  method ScanOccs(s: Internal, os0: seq<int>, lit: int, ghost c: nat) returns (os: seq<int>, res: bool)
    requires c < |s.clauses| && s.marks == Lits(s.clauses[c].lits)
    requires forall x :: x in s.clauses[c].lits ==> -x !in s.clauses[c].lits
    requires lit in s.clauses[c].lits && ConnectedIn(s.clauses, os0, -lit)
    modifies s`clauses
    ensures res == BlockedBy(old(s.clauses), os0, old(s.clauses)[c].lits, lit)
    ensures SameUpToOrder(old(s.clauses), s.clauses) && s.clauses[c] == old(s.clauses)[c]
    ensures if res then os == os0 else MovedToFront(os, os0)
  {
    hide Shifted, Previous, MoveToFront, Clashes, SameUpToOrder, ConnectedIn, BlockedBy;
    ghost var cs := s.clauses;
    ghost var lits := cs[c].lits;
    os := os0;
    var prevD := -1;
    var i := 0;
    res := true;
    ShiftStart(os0, -1);
    SameUpToOrderReflexive(cs);
    while i < |os|
      invariant 0 <= i <= |os| == |os0| && res && s.marks == Lits(lits)
      invariant |s.clauses| == |cs| && SameUpToOrder(cs, s.clauses) && s.clauses[c] == cs[c]
      invariant prevD == Previous(os0, i, -1) && os == Shifted(os0, i, -1)
      invariant forall k :: 0 <= k < i ==> 0 <= os0[k] < |cs| && Clashes(lits, cs[os0[k]].lits, lit)
    {
      ShiftStep(os0, i, -1);
      ShiftFound(os0, i, -1);
      var d := os[i];
      ConnectedAt(cs, os0, -lit, i);
      os := os[i := prevD];
      prevD := d;
      ghost var before := s.clauses;
      var clashes := ClashInClause(s, d, -lit, lits);
      ClashStep(lits, cs, before, s.clauses, d, lit, clashes);
      if !clashes {
        os := os[0 := d];
        NotBlockedBy(cs, os0, lits, lit, i);
        MovedTo(os, os0, i);
        return os, false;
      }
      i := i + 1;
      PreviousIs(os0, i, -1);
    }
    os := Unshift(os, i, prevD, os0, -1);
    BlockedByAll(cs, os0, lits, lit);
  }

  lemma MovedTo(r: seq<int>, s: seq<int>, k: nat)
    requires k < |s| && r == MoveToFront(s, k)
    ensures MovedToFront(r, s)
  {
  }

  /** Decides whether a clause is blocked; the first clause with a non-tautological resolvent
      is moved to the front of the occurrence list. */
  method IsBlockedClause(s: Internal, c: nat, lit: int) returns (res: bool)
    requires s.Valid() && s.marks == {} && c < |s.clauses| && lit in s.clauses[c].lits
    requires s.Connected(-lit)
    modifies s`clauses, s`marks, s`occs
    ensures res <==> BlockedBy(old(s.clauses), old(s.Occs(-lit)), old(s.clauses)[c].lits, lit)
    ensures SameUpToOrder(old(s.clauses), s.clauses) && s.clauses[c] == old(s.clauses)[c]
    ensures s.marks == {}
    ensures s.occs == old(s.occs)[-lit := s.Occs(-lit)]
    ensures if res then s.Occs(-lit) == old(s.Occs(-lit)) else MovedToFront(s.Occs(-lit), old(s.Occs(-lit)))
  {
    assert GoodRecord(s.clauses[c], s.external.maxVar);
    hide SameUpToOrder, ConnectedIn, BlockedBy, GoodRecord, MovedToFront;
    s.MarkClause(c);
    var os;
    os, res := ScanOccs(s, s.Occs(-lit), lit, c);
    s.UnmarkClause(c);
    s.occs := s.occs[-lit := os];
  }

  lemma ConnectedAt(cs: seq<ClauseRecord>, os: seq<int>, lit: int, k: nat)
    requires ConnectedIn(cs, os, lit) && k < |os|
    ensures 0 <= os[k] < |cs| && lit in cs[os[k]].lits && !cs[os[k]].redundant
  {
    assert os[k] in os;
  }

  lemma BlockedByAll(cs: seq<ClauseRecord>, os: seq<int>, c: Clause, lit: int)
    requires forall k :: 0 <= k < |os| ==> 0 <= os[k] < |cs| && Clashes(c, cs[os[k]].lits, lit)
    ensures BlockedBy(cs, os, c, lit)
  {
  }

  lemma NotBlockedBy(cs: seq<ClauseRecord>, os: seq<int>, c: Clause, lit: int, k: nat)
    requires k < |os| && 0 <= os[k] < |cs| && !Clashes(c, cs[os[k]].lits, lit)
    ensures !BlockedBy(cs, os, c, lit)
  {
    assert os[k] in os;
  }

  lemma SameUpToOrderReflexive(cs: seq<ClauseRecord>)
    ensures SameUpToOrder(cs, cs)
  {
  }

  lemma ClashStep(c: Clause, cs: seq<ClauseRecord>, before: seq<ClauseRecord>, after: seq<ClauseRecord>,
                  d: nat, lit: int, found: bool)
    requires SameUpToOrder(cs, before) && SameUpToOrder(before, after) && d < |cs|
    requires found <==> exists x :: x in before[d].lits && x != -lit && -x in c
    ensures SameUpToOrder(cs, after) && |cs| == |after|
    ensures found == Clashes(c, cs[d].lits, lit)
  {
    ClashesSameOrder(c, cs[d].lits, c, before[d].lits, lit);
    SameUpToOrderTransitive(cs, before, after);
  }

  // ---------------------------------------------------------------- blocking on a literal

  /** The clauses with the literal, of admissible size, that are blocked on it. */
  ghost function Removable(cs: seq<ClauseRecord>, os: seq<int>, lit: int, minSize: int, maxSize: int): set<int> {
    set i | 0 <= i < |cs| && cs[i].Live() && lit in cs[i].lits
            && minSize <= |cs[i].lits| <= maxSize && BlockedBy(cs, os, cs[i].lits, lit)
  }

  /** Some listed clause exceeds the limit. */
  ghost predicate TooLarge(cs: seq<ClauseRecord>, os: seq<int>, limit: int) {
    exists k :: k in os && 0 <= k < |cs| && |cs[k].lits| > limit
  }

  /** Pushes a blocked clause on the extension stack and marks it as garbage. */
  method RemoveBlocked(s: Internal, c: nat, lit: int, ghost os: seq<int>)
    requires s.Valid() && s.Sound() && c < |s.clauses| && s.clauses[c].Live()
    requires lit in s.clauses[c].lits && s.Val(lit) == 0
    requires ConnectedIn(s.clauses, os, -lit) && BlockedBy(s.clauses, os, s.clauses[c].lits, lit)
    modifies s`clauses, s.external`extension, s.external`entries
    ensures s.Valid() && s.Sound()
    ensures s.clauses == old(s.clauses)[c := old(s.clauses)[c].(garbage := true)]
    ensures s.external.entries == old(s.external.entries) + [Entry([lit], s.clauses[c].id, s.clauses[c].lits)]
  {
    hide FormulaOf, Reconstructs, BlockedBy, Flatten;
    assert GoodRecord(s.clauses[c], s.external.maxVar);
    BlockKeeps(s.original, s.clauses, s.fixedLits, s.external.entries, c, lit, os, s.external.maxVar);
    s.external.PushClauseWithPivot(s.clauses[c].lits, s.clauses[c].id, lit);
    s.MarkGarbage(c);
  }

  /** Without a live clause with the negation every clause with the literal is blocked. */
  method BlockPureLiteral(s: Internal, lit: int)
    requires s.Valid() && s.Sound() && s.Val(lit) == 0 && s.Connected(lit) && s.Connected(-lit)
    requires forall i :: i in s.Occs(-lit) ==> s.clauses[i].garbage
    modifies s`clauses, s`occs, s.external`extension, s.external`entries
    ensures s.Valid() && s.Sound()
    ensures SameExcept(old(s.clauses), s.clauses,
                       set i | 0 <= i < |old(s.clauses)| && old(s.clauses)[i].Live() && lit in old(s.clauses)[i].lits)
    ensures s.occs == old(s.occs)[lit := []][-lit := []] && s.Connected(lit) && s.Connected(-lit)
  {
    hide FormulaOf, Reconstructs, Flatten, SameExcept;
    ghost var cs := s.clauses;
    var pos := s.Occs(lit);
    var k := 0;
    ghost var removed: set<int> := {};
    SameExceptNothing(cs);
    while k < |pos|
      invariant 0 <= k <= |pos| && s.Valid() && s.Sound() && s.occs == old(s.occs)
      invariant |s.clauses| == |cs| && SameExcept(cs, s.clauses, removed)
      invariant removed == set i | 0 <= i < |cs| && i in pos[..k] && cs[i].Live()
    {
      var c := pos[k];
      assert c in old(s.Occs(lit)) && pos[..k + 1] == pos[..k] + [c];
      SameExceptAt(cs, s.clauses, removed, c, lit);
      if !s.clauses[c].garbage {
        SameExceptKeeps(cs, s.clauses, removed, [], -lit, s.external.maxVar);
        NoLiveNegation(cs, s.clauses, removed, old(s.Occs(-lit)), lit);
        SameExceptRemoved(cs, s.clauses, removed, c);
        RemoveBlocked(s, c, lit, []);
        removed := removed + {c};
      }
      k := k + 1;
    }
    assert pos[..k] == pos;
    assert removed == set i | 0 <= i < |cs| && cs[i].Live() && lit in cs[i].lits;
    NothingConnected(cs, s.clauses, removed, lit, old(s.Occs(-lit)));
    s.occs := s.occs[lit := []];
    s.occs := s.occs[-lit := []];
  }

  lemma NothingConnected(cs: seq<ClauseRecord>, ds: seq<ClauseRecord>, removed: set<int>, lit: int, nos: seq<int>)
    requires SameExcept(cs, ds, removed) && ConnectedIn(cs, nos, -lit)
    requires removed == set i | 0 <= i < |cs| && cs[i].Live() && lit in cs[i].lits
    requires forall i :: i in nos ==> cs[i].garbage
    ensures ConnectedIn(ds, [], lit) && ConnectedIn(ds, [], -lit)
  {
    forall i | 0 <= i < |cs| ensures forall x :: x in cs[i].lits <==> x in ds[i].lits {
      SameMultisetSameLits(cs[i].lits, ds[i].lits);
    }
  }

  lemma SameExceptNothing(cs: seq<ClauseRecord>)
    ensures SameExcept(cs, cs, {})
  {
  }

  lemma SameExceptAt(cs: seq<ClauseRecord>, ds: seq<ClauseRecord>, removed: set<int>, c: int, lit: int)
    requires SameExcept(cs, ds, removed) && 0 <= c < |cs|
    ensures |ds| == |cs| && ds[c].garbage == (cs[c].garbage || c in removed) && ds[c].redundant == cs[c].redundant
    ensures multiset(cs[c].lits) == multiset(ds[c].lits) && |ds[c].lits| == |cs[c].lits|
    ensures (lit in ds[c].lits) == (lit in cs[c].lits)
  {
    SameMultisetSameLits(cs[c].lits, ds[c].lits);
  }

  lemma NoLiveNegation(cs: seq<ClauseRecord>, ds: seq<ClauseRecord>, removed: set<int>, os: seq<int>, lit: int)
    requires SameExcept(cs, ds, removed) && ConnectedIn(cs, os, -lit)
    requires forall i :: i in os ==> cs[i].garbage
    ensures ConnectedIn(ds, [], -lit)
  {
    forall i | 0 <= i < |ds| && ds[i].Live() ensures -lit !in ds[i].lits {
      SameMultisetSameLits(cs[i].lits, ds[i].lits);
    }
  }

  /** Two occurrence lists of the same clauses. */
  ghost predicate SameMembers(r: seq<int>, s: seq<int>) {
    forall k :: k in r <==> k in s
  }

  lemma MovedSameMembers(r: seq<int>, s: seq<int>)
    requires r == s || MovedToFront(r, s)
    ensures SameMembers(r, s)
  {
    if r != s {
      var k: nat :| k < |s| && r == MoveToFront(s, k);
      assert s == s[..k] + [s[k]] + s[k + 1..];
    }
  }

  lemma SameMembersKeeps(cs: seq<ClauseRecord>, ds: seq<ClauseRecord>, removed: set<int>,
                         r: seq<int>, s: seq<int>, c: Clause, lit: int)
    requires SameMembers(r, s) && SameExcept(cs, ds, removed)
    ensures ConnectedIn(cs, s, -lit) ==> ConnectedIn(ds, r, -lit)
    ensures BlockedBy(ds, r, c, lit) == BlockedBy(cs, s, c, lit)
  {
    SameExceptKeeps(cs, ds, removed, s, -lit, 0);
    BlockedBySameOrder(cs, ds, s, c, c, lit);
  }

  lemma BlockedClauseSameOrder(cs: seq<ClauseRecord>, os: seq<int>, c: Clause, c': Clause, lit: int)
    requires multiset(c) == multiset(c')
    ensures BlockedBy(cs, os, c, lit) == BlockedBy(cs, os, c', lit)
  {
    BlockedBySameOrder(cs, cs, os, c, c', lit);
  }

  lemma ReorderedIsSound(original: Formula, cs: seq<ClauseRecord>, ds: seq<ClauseRecord>, fixedLits: set<int>,
                         stack: seq<Entry>, maxVar: nat)
    requires SameUpToOrder(cs, ds)
    ensures SameExcept(cs, ds, {})
    ensures Reconstructs(original, State(FormulaOf(cs, fixedLits), stack))
        ==> Reconstructs(original, State(FormulaOf(ds, fixedLits), stack))
    ensures (forall i :: 0 <= i < |cs| ==> GoodRecord(cs[i], maxVar)) ==> forall i :: 0 <= i < |ds| ==>
              GoodRecord(ds[i], maxVar)
  {
    SameUpToOrderFormula(cs, ds, fixedLits);
    assert SameExcept(cs, ds, {});
    SameExceptKeeps(cs, ds, {}, [], 0, maxVar);
  }

  /** Tries one candidate: it is removed exactly if it is blocked. */
  method TryBlock(s: Internal, c: nat, lit: int) returns (blocked: bool)
    requires s.Valid() && s.Sound() && s.marks == {} && s.Val(lit) == 0
    requires c < |s.clauses| && lit in s.clauses[c].lits && s.clauses[c].Live() && s.Connected(-lit)
    modifies s`clauses, s`marks, s`occs, s.external`extension, s.external`entries
    ensures s.Valid() && s.Sound() && s.marks == {} && s.Connected(-lit)
    ensures blocked == BlockedBy(old(s.clauses), old(s.Occs(-lit)), old(s.clauses)[c].lits, lit)
    ensures SameExcept(old(s.clauses), s.clauses, if blocked then {c} else {})
    ensures s.occs == old(s.occs)[-lit := s.Occs(-lit)] && SameMembers(s.Occs(-lit), old(s.Occs(-lit)))
  {
    hide FormulaOf, Reconstructs, BlockedBy, SameUpToOrder, SameExcept, ConnectedIn, MovedToFront, SameMembers,
         GoodRecord;
    ghost var cs, os := s.clauses, s.Occs(-lit);
    blocked := IsBlockedClause(s, c, lit);
    ghost var ds, r := s.clauses, s.Occs(-lit);
    ReorderedIsSound(s.original, cs, ds, s.fixedLits, s.external.entries, s.external.maxVar);
    MovedSameMembers(r, os);
    SameMembersKeeps(cs, ds, {}, r, os, cs[c].lits, lit);
    SameLength(cs, ds);
    MembersInRange(cs, os, r);
    if blocked {
      SameExceptAt(cs, ds, {}, c, lit);
      SameExceptRemoved(cs, ds, {}, c);
      assert {} + {c} == {c};
      RemoveBlocked(s, c, lit, r);
      SameMembersKeeps(cs, s.clauses, {c}, r, os, cs[c].lits, lit);
    }
  }

  lemma SameLength(cs: seq<ClauseRecord>, ds: seq<ClauseRecord>)
    requires SameUpToOrder(cs, ds)
    ensures |cs| == |ds|
  {
  }

  lemma MembersInRange(cs: seq<ClauseRecord>, os: seq<int>, r: seq<int>)
    requires SameMembers(r, os) && forall i :: i in os ==> 0 <= i < |cs|
    ensures forall i :: i in r ==> 0 <= i < |cs|
  {
  }

  // ---------------------------------------------------------------- candidate filters

  /** Some literal of `c` other than `lit` occurs negated in a clause of the list. */
  ghost predicate Touches(cs: seq<ClauseRecord>, os: seq<int>, c: Clause, lit: int) {
    exists k, x :: k in os && 0 <= k < |cs| && x in c && x != lit && -x in cs[k].lits
  }

  ghost predicate InRange(cs: seq<ClauseRecord>, os: seq<int>) {
    forall k :: k in os ==> 0 <= k < |cs|
  }

  /** The literals of all listed clauses. */
  method MarkAll(cs: seq<ClauseRecord>, os: seq<int>) returns (marks: set<int>)
    requires InRange(cs, os)
    ensures forall x :: x in marks <==> exists k :: k in os && 0 <= k < |cs| && x in cs[k].lits
  {
    marks := {};
    for i := 0 to |os|
      invariant forall x :: x in marks <==> exists k :: k in os[..i] && 0 <= k < |cs| && x in cs[k].lits
    {
      assert os[..i + 1] == os[..i] + [os[i]] && os[i] in os;
      marks := marks + Lits(cs[os[i]].lits);
    }
    assert os[..|os|] == os;
  }

  method HasMarkedNegation(c: Clause, except: int, marks: set<int>) returns (found: bool)
    ensures found <==> exists x :: x in c && x != except && -x in marks
  {
    var l := 0;
    while l < |c|
      invariant 0 <= l <= |c|
      invariant forall k :: 0 <= k < l ==> c[k] == except || -c[k] !in marks
    {
      if c[l] != except && -c[l] in marks {
        assert c[l] in c;
        return true;
      }
      l := l + 1;
    }
    return false;
  }

  ghost predicate WorthTrying(cs: seq<ClauseRecord>, nos: seq<int>, i: int, lit: int, minSize: int, maxSize: int) {
    0 <= i < |cs| && minSize <= |cs[i].lits| <= maxSize && Touches(cs, nos, cs[i].lits, lit)
  }

  /** The clauses worth trying: admissible size, and touching a clause with the negation. */
  method BlockCandidates(cs: seq<ClauseRecord>, pos: seq<int>, nos: seq<int>, lit: int, minSize: int, maxSize: int)
    returns (candidates: seq<int>)
    requires InRange(cs, pos) && InRange(cs, nos)
    ensures forall i :: i in candidates <==> i in pos && WorthTrying(cs, nos, i, lit, minSize, maxSize)
  {
    var marks := MarkAll(cs, nos);
    candidates := [];
    for j := 0 to |pos|
      invariant forall i :: i in candidates <==> i in pos[..j] && WorthTrying(cs, nos, i, lit, minSize, maxSize)
    {
      var c := pos[j];
      assert pos[..j + 1] == pos[..j] + [c] && c in pos;
      if |cs[c].lits| <= maxSize && minSize <= |cs[c].lits| {
        var touches := HasMarkedNegation(cs[c].lits, lit, marks);
        assert touches == Touches(cs, nos, cs[c].lits, lit);
        if touches {
          candidates := candidates + [c];
        }
      }
    }
    assert pos[..|pos|] == pos;
  }

  /** A clause that touches no clause with the negation is not blocked if there is one. */
  lemma UntouchedIsNotBlocked(cs: seq<ClauseRecord>, os: seq<int>, c: Clause, lit: int)
    requires InRange(cs, os) && os != [] && !Touches(cs, os, c, lit)
    ensures !BlockedBy(cs, os, c, lit)
  {
    assert os[0] in os;
    ClashTouches(cs, os, c, os[0], lit);
  }

  lemma ClashTouches(cs: seq<ClauseRecord>, os: seq<int>, c: Clause, k: int, lit: int)
    requires k in os && 0 <= k < |cs|
    ensures Clashes(c, cs[k].lits, lit) ==> Touches(cs, os, c, lit)
  {
    if Clashes(c, cs[k].lits, lit) {
      var x :| x in cs[k].lits && x != -lit && -x in c;
      assert -x in c && -x != lit && -(-x) in cs[k].lits;
    }
  }

  /** Searches a clause with the negation that no candidate clashes with; then no candidate
      is blocked.  The last such clause is reported, and -1 if there is none. */
  method BlockImpossible(cs: seq<ClauseRecord>, nos: seq<int>, candidates: seq<int>, lit: int) returns (res: int)
    requires InRange(cs, nos) && InRange(cs, candidates)
    ensures res == -1 || res in nos
    ensures res == -1 <==> forall k :: k in nos ==> ClashesWithSome(cs, candidates, k, lit)
    ensures res != -1 ==> !ClashesWithSome(cs, candidates, res, lit)
  {
    hide ClashesWithSome;
    var marks := MarkAll(cs, candidates);
    res := -1;
    for j := 0 to |nos|
      invariant res == -1 || (res in nos && !ClashesWithSome(cs, candidates, res, lit))
      invariant res == -1 <==> forall k :: k in nos[..j] ==> ClashesWithSome(cs, candidates, k, lit)
    {
      var c := nos[j];
      assert nos[..j + 1] == nos[..j] + [c] && c in nos;
      var found := HasMarkedNegation(cs[c].lits, -lit, marks);
      ClashesSome(cs, candidates, c, lit, marks, found);
      if !found {
        res := c;
      }
    }
    assert nos[..|nos|] == nos;
  }

  ghost predicate ClashesWithSome(cs: seq<ClauseRecord>, candidates: seq<int>, c: int, lit: int) {
    0 <= c < |cs| && exists i :: i in candidates && 0 <= i < |cs| && Clashes(cs[i].lits, cs[c].lits, lit)
  }

  lemma ClashesSome(cs: seq<ClauseRecord>, candidates: seq<int>, c: int, lit: int, marks: set<int>, found: bool)
    requires 0 <= c < |cs| && InRange(cs, candidates)
    requires forall x :: x in marks <==> exists k :: k in candidates && 0 <= k < |cs| && x in cs[k].lits
    requires found <==> exists x :: x in cs[c].lits && x != -lit && -x in marks
    ensures found <==> ClashesWithSome(cs, candidates, c, lit)
  {
    if found {
      var x :| x in cs[c].lits && x != -lit && -x in marks;
      var k :| k in candidates && 0 <= k < |cs| && -x in cs[k].lits;
      assert Clashes(cs[k].lits, cs[c].lits, lit);
    }
    if ClashesWithSome(cs, candidates, c, lit) {
      var i :| i in candidates && 0 <= i < |cs| && Clashes(cs[i].lits, cs[c].lits, lit);
      var x :| x in cs[c].lits && x != -lit && -x in cs[i].lits;
      assert -x in marks;
    }
  }

  /** No candidate is blocked if some clause with the negation clashes with none of them. */
  lemma ImpossibleMeansNotBlocked(cs: seq<ClauseRecord>, nos: seq<int>, candidates: seq<int>, d: int, lit: int)
    requires InRange(cs, nos) && d in nos && !ClashesWithSome(cs, candidates, d, lit)
    ensures forall i :: i in candidates && 0 <= i < |cs| ==> !BlockedBy(cs, nos, cs[i].lits, lit)
  {
  }

  // ---------------------------------------------------------------- the literal as a whole

  lemma ManyInvariantStep(cs: seq<ClauseRecord>, ds: seq<ClauseRecord>, es: seq<ClauseRecord>,
                          removed: set<int>, more: set<int>)
    requires SameExcept(cs, ds, removed) && SameExcept(ds, es, more)
    ensures SameExcept(cs, es, removed + more)
  {
  }

  /** The general case: exactly the blocked clauses of admissible size are removed, unless
      some clause with the negation is too large. */
  method BlockLiteralWithAtLeastTwoNegativeOccs(s: Internal, lit: int, minSize: int, maxSize: int)
    requires s.Valid() && s.Sound() && s.marks == {} && s.Val(lit) == 0
    requires s.Connected(lit) && s.Connected(-lit)
    requires lit != 0 && Filter(s.Occs(-lit), s.clauses) != [] && maxSize >= 0
    modifies s`clauses, s`marks, s`occs, s.external`extension, s.external`entries
    ensures s.Valid() && s.Sound() && s.marks == {}
    ensures var nos := Filter(old(s.Occs(-lit)), old(s.clauses));
            if TooLarge(old(s.clauses), nos, maxSize)
            then s.clauses == old(s.clauses) && s.external.entries == old(s.external.entries)
            else SameExcept(old(s.clauses), s.clauses, Removable(old(s.clauses), nos, lit, minSize, maxSize))
    ensures s.Connected(lit) && s.Connected(-lit)
  {
    hide FormulaOf, Reconstructs, BlockedBy, SameExcept, ConnectedIn, GoodRecord, Removable, Filter, WorthTrying;
    ghost var cs := s.clauses;
    ghost var nos := Filter(s.Occs(-lit), s.clauses);
    FlushedConnected(s.clauses, s.Occs(-lit), -lit);
    FlushedConnected(s.clauses, s.Occs(lit), lit);
    s.FlushOccs(-lit);
    ConnectedInRange(cs, nos, -lit);
    var tooLarge := AnyLarger(s.clauses, s.Occs(-lit), maxSize);
    if tooLarge {
      return;
    }
    s.FlushOccs(lit);
    ConnectedInRange(cs, s.Occs(lit), lit);
    FlushedIsLive(cs, old(s.Occs(lit)));
    var candidates := PromisingCandidates(s.clauses, s.Occs(lit), s.Occs(-lit), lit, minSize, maxSize);
    ghost var pos := s.Occs(lit);
    ghost var removed := BlockAll(s, lit, candidates);
    SameExceptKeeps(cs, s.clauses, removed, pos, lit, 0);
  }

  /** The candidates to be tried, none of them if some clause with the negation shows that
      trying is useless. */
  method PromisingCandidates(cs: seq<ClauseRecord>, pos: seq<int>, nos: seq<int>, lit: int, minSize: int, maxSize: int)
    returns (candidates: seq<int>)
    requires ConnectedIn(cs, nos, -lit) && nos != [] && ConnectedIn(cs, pos, lit)
    requires forall i :: i in pos && 0 <= i < |cs| ==> !cs[i].garbage
    ensures forall i :: i in candidates ==> 0 <= i < |cs| && cs[i].Live() && lit in cs[i].lits
    ensures Removable(cs, nos, lit, minSize, maxSize)
         == set i | i in candidates && 0 <= i < |cs| && BlockedBy(cs, nos, cs[i].lits, lit)
  {
    hide BlockedBy, ConnectedIn, Removable, WorthTrying;
    ConnectedInRange(cs, nos, -lit);
    ConnectedInRange(cs, pos, lit);
    candidates := BlockCandidates(cs, pos, nos, lit, minSize, maxSize);
    RemovableAmong(cs, nos, lit, minSize, maxSize, pos, candidates);
    if |candidates| > 1 {
      var d := BlockImpossible(cs, nos, candidates, lit);
      if d != -1 {
        ImpossibleMeansNotBlocked(cs, nos, candidates, d, lit);
        NothingRemovable(cs, nos, lit, minSize, maxSize, candidates);
        candidates := [];
      }
    }
  }

  /** Whether the largest listed clause exceeds the limit. */
  method AnyLarger(cs: seq<ClauseRecord>, os: seq<int>, limit: int) returns (larger: bool)
    requires InRange(cs, os)
    ensures larger == (limit < 0 || exists k :: k in os && 0 <= k < |cs| && |cs[k].lits| > limit)
  {
    var max := 0;
    for j := 0 to |os|
      invariant max >= 0
      invariant forall k :: k in os[..j] ==> 0 <= k < |cs| && |cs[k].lits| <= max
      invariant max == 0 || exists k :: k in os && 0 <= k < |cs| && |cs[k].lits| == max
    {
      var c := os[j];
      assert os[..j + 1] == os[..j] + [c] && c in os;
      if |cs[c].lits| > max {
        max := |cs[c].lits|;
      }
    }
    assert os[..|os|] == os;
    larger := max > limit;
  }

  lemma ConnectedInRange(cs: seq<ClauseRecord>, os: seq<int>, lit: int)
    requires ConnectedIn(cs, os, lit)
    ensures InRange(cs, os)
  {
  }

  lemma FlushedIsLive(cs: seq<ClauseRecord>, os: seq<int>)
    ensures forall i :: i in Filter(os, cs) && 0 <= i < |cs| ==> !cs[i].garbage
  {
  }

  /** All removable clauses are among the candidates. */
  lemma RemovableAmong(cs: seq<ClauseRecord>, nos: seq<int>, lit: int, minSize: int, maxSize: int,
                       pos: seq<int>, candidates: seq<int>)
    requires ConnectedIn(cs, nos, -lit) && nos != [] && ConnectedIn(cs, pos, lit)
    requires forall i :: i in candidates <==> i in pos && WorthTrying(cs, nos, i, lit, minSize, maxSize)
    requires forall i :: i in pos && 0 <= i < |cs| ==> !cs[i].garbage
    ensures InRange(cs, candidates)
    ensures Removable(cs, nos, lit, minSize, maxSize)
         == set i | i in candidates && 0 <= i < |cs| && BlockedBy(cs, nos, cs[i].lits, lit)
    ensures forall i :: i in candidates ==> 0 <= i < |cs| && cs[i].Live() && lit in cs[i].lits
  {
    hide BlockedBy, Touches;
    assert InRange(cs, nos);
    forall i | i in Removable(cs, nos, lit, minSize, maxSize) ensures i in candidates {
      if !Touches(cs, nos, cs[i].lits, lit) {
        UntouchedIsNotBlocked(cs, nos, cs[i].lits, lit);
      }
    }
  }

  lemma NothingRemovable(cs: seq<ClauseRecord>, nos: seq<int>, lit: int, minSize: int, maxSize: int,
                         candidates: seq<int>)
    requires Removable(cs, nos, lit, minSize, maxSize)
         == set i | i in candidates && 0 <= i < |cs| && BlockedBy(cs, nos, cs[i].lits, lit)
    requires forall i :: i in candidates && 0 <= i < |cs| ==> !BlockedBy(cs, nos, cs[i].lits, lit)
    ensures Removable(cs, nos, lit, minSize, maxSize) == {}
  {
  }

  /** Tries all candidates one after the other. */
  method BlockAll(s: Internal, lit: int, candidates: seq<int>) returns (ghost removed: set<int>)
    requires s.Valid() && s.Sound() && s.marks == {} && s.Val(lit) == 0 && s.Connected(-lit)
    requires forall i :: i in candidates ==> 0 <= i < |s.clauses| && s.clauses[i].Live() && lit in s.clauses[i].lits
    modifies s`clauses, s`marks, s`occs, s.external`extension, s.external`entries
    ensures s.Valid() && s.Sound() && s.marks == {} && s.Connected(-lit)
    ensures forall l :: l != -lit ==> s.Occs(l) == old(s.Occs(l))
    ensures removed == set i | i in candidates && 0 <= i < |old(s.clauses)|
                            && BlockedBy(old(s.clauses), old(s.Occs(-lit)), old(s.clauses)[i].lits, lit)
    ensures SameExcept(old(s.clauses), s.clauses, removed)
  {
    hide FormulaOf, Reconstructs, BlockedBy, SameExcept, ConnectedIn, GoodRecord, SameMembers;
    ghost var cs, nos := s.clauses, s.Occs(-lit);
    removed := {};
    SameExceptNothing(cs);
    SameMembersReflexive(nos);
    for j := 0 to |candidates|
      invariant s.Valid() && s.Sound() && s.marks == {} && s.Connected(-lit) && |s.clauses| == |cs|
      invariant forall l :: l != -lit ==> s.Occs(l) == old(s.Occs(l))
      invariant SameMembers(s.Occs(-lit), nos) && SameExcept(cs, s.clauses, removed)
      invariant removed == set i | i in candidates[..j] && 0 <= i < |cs| && BlockedBy(cs, nos, cs[i].lits, lit)
    {
      var c := candidates[j];
      assert candidates[..j + 1] == candidates[..j] + [c] && c in candidates;
      ghost var ds, os := s.clauses, s.Occs(-lit);
      SameExceptAt(cs, ds, removed, c, lit);
      SameMembersKeeps(cs, ds, removed, os, nos, ds[c].lits, lit);
      BlockedClauseSameOrder(cs, nos, cs[c].lits, ds[c].lits, lit);
      if !s.clauses[c].garbage {
        var blocked := TryBlock(s, c, lit);
        SameMembersTransitive(s.Occs(-lit), os, nos);
        ManyInvariantStep(cs, ds, s.clauses, removed, if blocked then {c} else {});
        removed := removed + if blocked then {c} else {};
        SameExceptLength(cs, s.clauses, removed);
      }
    }
    assert candidates[..|candidates|] == candidates;
  }

  lemma SameExceptLength(cs: seq<ClauseRecord>, ds: seq<ClauseRecord>, removed: set<int>)
    requires SameExcept(cs, ds, removed)
    ensures |cs| == |ds|
  {
  }

  lemma SameMembersReflexive(s: seq<int>)
    ensures SameMembers(s, s)
  {
  }

  lemma SameMembersTransitive(a: seq<int>, b: seq<int>, c: seq<int>)
    requires SameMembers(a, b) && SameMembers(b, c)
    ensures SameMembers(a, c)
  {
  }

  ghost predicate HasOnlyMember(os: seq<int>) {
    os != [] && OnlyMember(os, os[0])
  }

  ghost predicate OnlyMember(os: seq<int>, d: int) {
    forall k :: k in os <==> k == d
  }

  /** With a single live clause containing the negation, that clause is marked once and the
      clauses with the literal are searched for a literal that clashes with it. */
  method BlockLiteralWithOneNegativeOcc(s: Internal, lit: int, minSize: int, maxSize: int)
    requires s.Valid() && s.Sound() && s.marks == {} && lit != 0 && s.Val(lit) == 0
    requires s.Connected(lit) && s.Connected(-lit)
    requires HasOnlyMember(Filter(s.Occs(-lit), s.clauses))
    modifies s`clauses, s`marks, s`occs, s.external`extension, s.external`entries
    ensures s.Valid() && s.Sound() && s.marks == {}
    ensures var nos := Filter(old(s.Occs(-lit)), old(s.clauses));
            if TooLarge(old(s.clauses), nos, maxSize)
            then s.clauses == old(s.clauses) && s.external.entries == old(s.external.entries)
            else SameExcept(old(s.clauses), s.clauses, Removable(old(s.clauses), nos, lit, minSize, maxSize))
    ensures |s.Occs(-lit)| == 1 && s.Occs(-lit)[0] in Filter(old(s.Occs(-lit)), old(s.clauses))
    ensures s.Connected(lit) && s.Connected(-lit)
  {
    hide FormulaOf, Reconstructs, BlockedBy, SameExcept, ConnectedIn, GoodRecord, Removable, Filter;
    ghost var cs := s.clauses;
    ghost var nos := Filter(s.Occs(-lit), cs);
    FlushedConnected(cs, s.Occs(-lit), -lit);
    ConnectedInRange(cs, s.Occs(-lit), -lit);
    var d := FirstLive(s.clauses, s.Occs(-lit));
    s.occs := s.occs[-lit := [d]];
    OnlyConnected(cs, nos, d, -lit);
    if |s.clauses[d].lits| > maxSize {
      return;
    }
    GoodAt(cs, d, s.external.maxVar);
    s.MarkClause(d);
    assert OnlyMember(nos, d);
    BlockAgainst(s, d, lit, minSize, maxSize, nos);
    SameExceptKeeps(cs, s.clauses, Removable(cs, nos, lit, minSize, maxSize), [d], -lit, 0);
    SameExceptLits(cs, s.clauses, Removable(cs, nos, lit, minSize, maxSize), d);
    s.UnmarkClause(d);
  }

  lemma GoodAt(cs: seq<ClauseRecord>, d: nat, maxVar: nat)
    requires d < |cs| && GoodRecord(cs[d], maxVar)
    ensures forall x :: x in cs[d].lits ==> -x !in cs[d].lits
  {
  }

  lemma SameExceptLits(cs: seq<ClauseRecord>, ds: seq<ClauseRecord>, removed: set<int>, d: nat)
    requires SameExcept(cs, ds, removed) && d < |cs|
    ensures |ds| == |cs| && Lits(cs[d].lits) == Lits(ds[d].lits)
  {
    SameMultisetSameLits(cs[d].lits, ds[d].lits);
  }

  /** One step of the pass below: a live clause of admissible size is removed exactly if it
      clashes with the marked clause `d`. */
  method TryAgainst(s: Internal, c: nat, d: nat, lit: int, minSize: int, maxSize: int) returns (blocked: bool)
    requires s.Valid() && s.Sound() && s.Val(lit) == 0 && d < |s.clauses| && c < |s.clauses| && c != d
    requires s.marks == Lits(s.clauses[d].lits) && forall x :: x in s.clauses[d].lits ==> -x !in s.clauses[d].lits
    requires ConnectedIn(s.clauses, [d], -lit) && lit in s.clauses[c].lits && !s.clauses[c].redundant
    modifies s`clauses, s.external`extension, s.external`entries
    ensures s.Valid() && s.Sound()
    ensures blocked == (var r := old(s.clauses)[c];
                        r.Live() && minSize <= |r.lits| <= maxSize && Clashes(r.lits, old(s.clauses)[d].lits, lit))
    ensures SameExcept(old(s.clauses), s.clauses, if blocked then {c} else {})
    ensures |s.clauses| == |old(s.clauses)| && s.clauses[d] == old(s.clauses)[d]
    ensures ConnectedIn(s.clauses, [d], -lit)
  {
    hide FormulaOf, Reconstructs, BlockedBy, SameExcept, SameUpToOrder, ConnectedIn, GoodRecord, Clashes;
    ghost var cs, dl := s.clauses, s.clauses[d].lits;
    SameExceptNothing(cs);
    if s.clauses[c].garbage {
      return false;
    }
    if |s.clauses[c].lits| > maxSize {
      return false;
    }
    if |s.clauses[c].lits| < minSize {
      return false;
    }
    blocked := ClashInClause(s, c, lit, dl);
    ghost var ds := s.clauses;
    ClashesSymmetric(cs[c].lits, dl, lit, blocked);
    ReorderedIsSound(s.original, cs, ds, s.fixedLits, s.external.entries, s.external.maxVar);
    SameExceptAt(cs, ds, {}, c, lit);
    SameExceptKeeps(cs, ds, {}, [d], -lit, 0);
    if blocked {
      BlockedByOne(cs, ds, c, d, lit);
      SameExceptRemoved(cs, ds, {}, c);
      assert {} + {c} == {c};
      RemoveBlocked(s, c, lit, [d]);
      SameExceptKeeps(cs, s.clauses, {c}, [d], -lit, 0);
    }
  }

  lemma ClashesSymmetric(c: Clause, d: Clause, lit: int, found: bool)
    requires found <==> exists x :: x in c && x != lit && -x in d
    ensures found == Clashes(c, d, lit)
  {
    if found {
      var x :| x in c && x != lit && -x in d;
      assert -x in d && -x != -lit && -(-x) in c;
    }
  }

  lemma BlockedByOne(cs: seq<ClauseRecord>, ds: seq<ClauseRecord>, c: nat, d: nat, lit: int)
    requires SameExcept(cs, ds, {}) && c < |cs| && d < |cs| && Clashes(cs[c].lits, cs[d].lits, lit)
    ensures BlockedBy(ds, [d], ds[c].lits, lit)
  {
    ClashesSameOrder(cs[c].lits, cs[d].lits, ds[c].lits, ds[d].lits, lit);
  }

  lemma NothingListed(os: seq<int>)
    ensures Members(os[..0]) == {}
  {
  }

  /** The pass over the clauses with the literal, against one marked clause. */
  method BlockAgainst(s: Internal, d: nat, lit: int, minSize: int, maxSize: int, ghost nos: seq<int>)
    requires s.Valid() && s.Sound() && lit != 0 && s.Val(lit) == 0
    requires d < |s.clauses| && s.marks == Lits(s.clauses[d].lits)
    requires forall x :: x in s.clauses[d].lits ==> -x !in s.clauses[d].lits
    requires s.Connected(lit) && ConnectedIn(s.clauses, [d], -lit) && OnlyMember(nos, d)
    modifies s`clauses, s`occs, s.external`extension, s.external`entries
    ensures s.Valid() && s.Sound() && s.Connected(lit)
    ensures SameExcept(old(s.clauses), s.clauses, Removable(old(s.clauses), nos, lit, minSize, maxSize))
    ensures s.occs == old(s.occs)[lit := s.Occs(lit)] && s.marks == old(s.marks)
  {
    hide FormulaOf, Reconstructs, BlockedBy, SameExcept, ConnectedIn, GoodRecord, Removable, Clashes,
         Kept, Members, Lits;
    ghost var cs := s.clauses;
    ghost var removed: set<int> := {};
    ghost var pos0 := s.Occs(lit);
    var pos := s.Occs(lit);
    var i, j := 0, 0;
    SameExceptNothing(cs);
    KeptNothing(cs);
    NothingListed(pos0);
    while i < |pos|
      invariant 0 <= j <= i <= |pos| == |pos0| && s.occs == old(s.occs)
      invariant s.Valid() && s.Sound() && |s.clauses| == |cs| && SameExcept(cs, s.clauses, removed)
      invariant s.clauses[d] == cs[d] && ConnectedIn(s.clauses, [d], -lit)
      invariant removed == Removable(cs, nos, lit, minSize, maxSize) * Members(pos0[..i])
      invariant forall k :: i <= k < |pos| ==> pos[k] == pos0[k]
      invariant Kept(s.clauses, pos[..j], pos0[..i])
    {
      var c := pos[i];
      ghost var ds := s.clauses;
      ConnectedAt(cs, pos0, lit, i);
      assert pos0[..i + 1] == pos0[..i] + [c];
      SameExceptAt(cs, ds, removed, c, lit);
      NotItsNegation(cs, d, c, lit);
      var garbage := s.clauses[c].garbage;
      var blocked := TryAgainst(s, c, d, lit, minSize, maxSize);
      RemovableMeans(cs, ds, removed, nos, d, c, lit, minSize, maxSize, pos0[..i], blocked);
      ManyInvariantStep(cs, ds, s.clauses, removed, if blocked then {c} else {});
      KeptStep(ds, s.clauses, if blocked then {c} else {}, pos[..j], pos0[..i], c);
      removed := removed + if blocked then {c} else {};
      pos := pos[j := c];
      assert pos[..j + 1] == pos[..j] + [c];
      j := j + 1;
      i := i + 1;
      if garbage || blocked {
        j := j - 1;
        assert pos[..j] == pos[..j + 1][..j];
      }
    }
    assert pos0[..i] == pos0;
    RemovableMembers(cs, nos, lit, minSize, maxSize, pos0);
    SameExceptKeeps(cs, s.clauses, removed, pos0, lit, 0);
    KeptConnected(s.clauses, pos[..j], pos0, lit);
    ConnectedInRange(s.clauses, pos[..j], lit);
    s.occs := s.occs[lit := pos[..j]];
  }

  /** The shortened list has exactly the members that are not garbage, or some garbage too. */
  ghost predicate Kept(cs: seq<ClauseRecord>, r: seq<int>, os: seq<int>) {
    && (forall x :: x in r ==> x in os)
    && (forall x :: x in os && x !in r ==> 0 <= x < |cs| && cs[x].garbage)
  }

  lemma KeptNothing(cs: seq<ClauseRecord>)
    ensures Kept(cs, [], [])
  {
  }

  lemma KeptStep(cs: seq<ClauseRecord>, ds: seq<ClauseRecord>, removed: set<int>, r: seq<int>, os: seq<int>, c: int)
    requires Kept(cs, r, os) && SameExcept(cs, ds, removed) && 0 <= c < |cs|
    ensures Kept(ds, r + [c], os + [c])
    ensures cs[c].garbage || c in removed ==> Kept(ds, r, os + [c])
  {
  }

  lemma KeptConnected(cs: seq<ClauseRecord>, r: seq<int>, os: seq<int>, lit: int)
    requires Kept(cs, r, os) && ConnectedIn(cs, os, lit)
    ensures ConnectedIn(cs, r, lit)
  {
  }

  lemma NotItsNegation(cs: seq<ClauseRecord>, d: nat, c: int, lit: int)
    requires d < |cs| && 0 <= c < |cs| && lit in cs[c].lits && ConnectedIn(cs, [d], -lit)
    requires forall x :: x in cs[d].lits ==> -x !in cs[d].lits
    ensures c != d
  {
    assert d in [d];
  }

  lemma RemovableMembers(cs: seq<ClauseRecord>, nos: seq<int>, lit: int, minSize: int, maxSize: int, pos: seq<int>)
    requires ConnectedIn(cs, pos, lit)
    ensures Removable(cs, nos, lit, minSize, maxSize) * Members(pos) == Removable(cs, nos, lit, minSize, maxSize)
  {
  }

  lemma RemovableMeans(cs: seq<ClauseRecord>, ds: seq<ClauseRecord>, removed: set<int>, nos: seq<int>, d: nat, c: nat,
                       lit: int, minSize: int, maxSize: int, done: seq<int>, blocked: bool)
    requires SameExcept(cs, ds, removed) && d < |cs| && c < |cs| && ds[d] == cs[d]
    requires OnlyMember(nos, d)
    requires lit in cs[c].lits && !cs[c].redundant
    requires removed == Removable(cs, nos, lit, minSize, maxSize) * Members(done)
    requires blocked == (ds[c].Live() && minSize <= |ds[c].lits| <= maxSize && Clashes(ds[c].lits, ds[d].lits, lit))
    ensures removed + (if blocked then {c} else {}) == Removable(cs, nos, lit, minSize, maxSize) * Members(done + [c])
  {
    SameMultisetSameLits(cs[c].lits, ds[c].lits);
    ClashesSameOrder(cs[c].lits, cs[d].lits, ds[c].lits, ds[d].lits, lit);
    assert BlockedBy(cs, nos, cs[c].lits, lit) == Clashes(cs[c].lits, cs[d].lits, lit);
  }

  method FirstLive(cs: seq<ClauseRecord>, os: seq<int>) returns (d: int)
    requires InRange(cs, os) && Filter(os, cs) != []
    ensures d in Filter(os, cs) && 0 <= d < |cs|
  {
    hide Filter;
    assert Filter(os, cs)[0] in Filter(os, cs);
    ghost var k :| 0 <= k < |os| && os[k] == Filter(os, cs)[0];
    var i := 0;
    while cs[os[i]].garbage
      invariant 0 <= i <= k && os[i] in os
      decreases k - i
    {
      assert os[i] in os && os[i + 1] in os;
      i := i + 1;
    }
    d := os[i];
    assert d in os;
  }

  lemma OnlyConnected(cs: seq<ClauseRecord>, nos: seq<int>, d: int, lit: int)
    requires ConnectedIn(cs, nos, lit) && d in nos && forall k :: k in nos ==> k == d
    ensures ConnectedIn(cs, [d], lit)
  {
  }

  /** The number of live clauses with a literal. */
  function NumOccs(s: Internal, lit: int): nat
    reads s
  {
    |Filter(s.Occs(lit), s.clauses)|
  }

  lemma NothingToRemove(cs: seq<ClauseRecord>, pos: seq<int>, nos: seq<int>, lit: int, minSize: int, maxSize: int)
    requires ConnectedIn(cs, pos, lit) && |Filter(pos, cs)| == 0
    ensures SameExcept(cs, cs, Removable(cs, nos, lit, minSize, maxSize))
  {
    FilterEmpty(pos, cs);
    assert Removable(cs, nos, lit, minSize, maxSize) == {};
  }

  /** Dispatches on the number of clauses with the literal and with its negation.  A pure literal
      removes all clauses with it; otherwise exactly the blocked ones of admissible size go,
      unless some clause with the negation is too large. */
  method BlockLiteral(s: Internal, lit: int, frozen: bool, occLimit: int, minSize: int, maxSize: int)
    requires s.Valid() && s.Sound() && s.marks == {} && lit != 0 && s.Val(lit) == 0 && maxSize >= 0
    requires s.Connected(lit) && s.Connected(-lit)
    modifies s`clauses, s`marks, s`occs, s.external`extension, s.external`entries
    ensures s.Valid() && s.Sound() && s.marks == {}
    ensures var cs, nos := old(s.clauses), Filter(old(s.Occs(-lit)), old(s.clauses));
            if frozen || |nos| > occLimit || (nos != [] && TooLarge(cs, nos, maxSize))
            then s.clauses == cs && s.external.entries == old(s.external.entries)
            else if nos == [] then SameExcept(cs, s.clauses, set i | 0 <= i < |cs| && cs[i].Live() && lit in cs[i].lits)
            else SameExcept(cs, s.clauses, Removable(cs, nos, lit, minSize, maxSize))
    ensures s.Connected(lit) && s.Connected(-lit)
  {
    hide FormulaOf, Reconstructs, BlockedBy, SameExcept, ConnectedIn, GoodRecord, Removable, Filter;
    if frozen {
      return;
    }
    if NumOccs(s, -lit) > occLimit {
      return;
    }
    if NumOccs(s, -lit) == 0 {
      FilterEmpty(s.Occs(-lit), s.clauses);
      ConnectedInRange(s.clauses, s.Occs(-lit), -lit);
      BlockPureLiteral(s, lit);
    } else if NumOccs(s, lit) == 0 {
      NothingToRemove(s.clauses, s.Occs(lit), Filter(s.Occs(-lit), s.clauses), lit, minSize, maxSize);
    } else if NumOccs(s, -lit) == 1 {
      BlockLiteralWithOneNegativeOcc(s, lit, minSize, maxSize);
    } else {
      BlockLiteralWithAtLeastTwoNegativeOccs(s, lit, minSize, maxSize);
    }
  }

  lemma FilterEmpty(os: seq<int>, cs: seq<ClauseRecord>)
    requires |Filter(os, cs)| == 0
    ensures forall i :: i in os ==> 0 <= i < |cs| && cs[i].garbage
  {
    forall i | i in os ensures 0 <= i < |cs| && cs[i].garbage {
      assert i !in Filter(os, cs);
    }
  }
}
