/** Covered clause elimination: asymmetric and covered literal additions. */
module Covering {
  import opened Cnf
  import opened Extension
  import opened Reconstruction
  import opened InternalSolver
  import opened CoverSteps
  import P = Propagation
  import B = Blocking

  // ---------------------------------------------------------------- the private stack

  /** The private extension stack for the saved clauses. */
  function Concat(saved: seq<Clause>): seq<int> {
    if saved == [] then [] else Concat(saved[..|saved| - 1]) + [0] + saved[|saved| - 1]
  }

  lemma {:induction false} ConcatPush(saved: seq<Clause>, c: Clause)
    ensures Concat(saved + [c]) == Concat(saved) + [0] + c
  {
    assert (saved + [c])[..|saved|] == saved;
  }

  lemma {:induction false} ConcatPrefix(saved: seq<Clause>, k: nat)
    requires k <= |saved|
    ensures Concat(saved[..k]) <= Concat(saved)
    decreases |saved| - k
  {
    hide Concat;
    if k < |saved| {
      ConcatPush(saved[..k], saved[k]);
      assert saved[..k + 1] == saved[..k] + [saved[k]];
      ConcatPrefix(saved, k + 1);
    } else {
      assert saved[..k] == saved;
    }
  }

  /** Where the clauses are on the private stack. */
  lemma {:induction false} ConcatAt(saved: seq<Clause>, k: nat)
    requires k < |saved|
    ensures |Concat(saved[..k + 1])| == |Concat(saved[..k])| + 1 + |saved[k]| <= |Concat(saved)|
    ensures Concat(saved)[|Concat(saved[..k])|] == 0
    ensures forall j :: 0 <= j < |saved[k]| ==> Concat(saved)[|Concat(saved[..k])| + 1 + j] == saved[k][j]
  {
    hide Concat;
    var a := Concat(saved[..k]);
    ConcatPush(saved[..k], saved[k]);
    assert saved[..k + 1] == saved[..k] + [saved[k]];
    ConcatPrefix(saved, k + 1);
    var b := a + [0] + saved[k];
    assert forall i :: 0 <= i < |b| ==> Concat(saved)[i] == b[i];
    assert b[|a|] == 0;
    assert forall j :: 0 <= j < |saved[k]| ==> b[|a| + 1 + j] == saved[k][j];
  }

  // ---------------------------------------------------------------- literals assigned at the root

  predicate HasRootValue(x: int, fixedLits: set<int>) {
    x in fixedLits || -x in fixedLits
  }

  /** The literals with, respectively without a root value, in order. */
  function RootAssigned(c: Clause, fixedLits: set<int>): Clause {
    if c == [] then [] else
      var n := |c| - 1;
      var rest := RootAssigned(c[..n], fixedLits);
      if HasRootValue(c[n], fixedLits) then rest + [c[n]] else rest
  }

  function RootFree(c: Clause, fixedLits: set<int>): Clause {
    if c == [] then [] else
      var n := |c| - 1;
      var rest := RootFree(c[..n], fixedLits);
      if HasRootValue(c[n], fixedLits) then rest else rest + [c[n]]
  }

  lemma RootStep(c: Clause, i: nat, fixedLits: set<int>)
    requires i < |c|
    ensures RootAssigned(c[..i + 1], fixedLits)
         == RootAssigned(c[..i], fixedLits) + if HasRootValue(c[i], fixedLits) then [c[i]] else []
    ensures RootFree(c[..i + 1], fixedLits)
         == RootFree(c[..i], fixedLits) + if HasRootValue(c[i], fixedLits) then [] else [c[i]]
  {
    assert c[..i + 1][..i] == c[..i];
  }

  lemma {:induction false} RootMembers(c: Clause, fixedLits: set<int>)
    ensures forall x :: x in RootAssigned(c, fixedLits) <==> x in c && HasRootValue(x, fixedLits)
    ensures forall x :: x in RootFree(c, fixedLits) <==> x in c && !HasRootValue(x, fixedLits)
  {
    if c != [] {
      var n := |c| - 1;
      RootMembers(c[..n], fixedLits);
      assert c == c[..n] + [c[n]];
      assert forall x :: x in c <==> x in c[..n] || x == c[n];
    }
  }

  lemma {:induction false} RootFreePrefix(c: Clause, i: nat, fixedLits: set<int>)
    requires i <= |c|
    ensures RootFree(c[..i], fixedLits) <= RootFree(c, fixedLits)
    decreases |c| - i
  {
    if i < |c| {
      RootStep(c, i, fixedLits);
      RootFreePrefix(c, i + 1, fixedLits);
    } else {
      assert c[..i] == c;
    }
  }

  /** Moves the element at position `i` to the front, step by step. */
  method RotateToFront(os: seq<int>, i: nat) returns (r: seq<int>)
    requires i < |os|
    ensures r == B.MoveToFront(os, i)
  {
    r := os;
    var c := os[i];
    var k := i;
    while k != 0
      invariant 0 <= k <= i && |r| == |os|
      invariant forall j :: 0 <= j <= k ==> r[j] == os[j]
      invariant forall j :: k < j <= i ==> r[j] == os[j - 1]
      invariant forall j :: i < j < |os| ==> r[j] == os[j]
    {
      r := r[k := r[k - 1]];
      k := k - 1;
    }
    r := r[0 := c];
  }

  // ---------------------------------------------------------------- the private copy

  /** Appends the literals of the clause that are missing in the covered literals: those
      that are false at the root. */
  method PushMissing(e: External, c: Clause, covered: Clause, ghost fixedLits: set<int>,
                     ghost w: int, ghost id: int, ghost before: Clause) returns (ghost missing: Clause)
    requires e.Open(w, id, before) && RootFree(c, fixedLits) <= covered
    requires forall x :: x in covered ==> !HasRootValue(x, fixedLits)
    modifies e`extension
    ensures missing == RootAssigned(c, fixedLits) && e.Open(w, id, before + missing)
  {
    hide RootFree, RootAssigned;
    var i, j := 0, 0;
    missing := [];
    assert before + [] == before;
    RootEmpty(fixedLits);
    assert c[..0] == [];
    while i < |c|
      invariant 0 <= i <= |c| && j == |RootFree(c[..i], fixedLits)| && missing == RootAssigned(c[..i], fixedLits)
      invariant e.Open(w, id, before + missing)
    {
      var lit := c[i];
      RootStep(c, i, fixedLits);
      RootFreePrefix(c, i, fixedLits);
      RootFreePrefix(c, i + 1, fixedLits);
      if !HasRootValue(lit, fixedLits) {
        assert covered[j] == RootFree(c, fixedLits)[j] == RootFree(c[..i + 1], fixedLits)[j] == lit;
      }
      if j >= |covered| || lit != covered[j] {
        e.PushClauseLiteral(lit, w, id, before + missing);
        assert before + missing + [lit] == before + (missing + [lit]);
        missing := missing + [lit];
      } else {
        assert covered[j] in covered;
        j := j + 1;
      }
      i := i + 1;
    }
    assert c[..i] == c;
  }

  lemma RootEmpty(fixedLits: set<int>)
    ensures RootFree([], fixedLits) == [] && RootAssigned([], fixedLits) == []
  {
  }

  /** Clauses that can be pushed. */
  ghost predicate GoodSaved(saved: seq<Clause>, maxVar: nat) {
    forall k :: 0 <= k < |saved| ==> saved[k] != [] && forall x :: x in saved[k] ==> x != 0 && Abs(x) <= maxVar
  }

  /** In the private stack, after the first element of clause `k` or behind: the next element
      is the next literal or the separator in front of the next clause. */
  lemma NextElement(saved: seq<Clause>, k: nat, n: nat, i: nat, maxVar: nat)
    requires GoodSaved(saved, maxVar) && k < |saved| && n <= |saved[k]| && i == |Concat(saved[..k])| + 1 + n
    ensures saved[k] != []
    ensures n < |saved[k]| ==> i < |Concat(saved)| && Concat(saved)[i] == saved[k][n] && saved[k][n] != 0
    ensures n == |saved[k]| ==> i == |Concat(saved[..k + 1])|
    ensures n == |saved[k]| && k + 1 < |saved| ==> i < |Concat(saved)| && Concat(saved)[i] == 0
    ensures n == |saved[k]| && k + 1 == |saved| ==> i == |Concat(saved)|
  {
    hide Concat;
    ConcatAt(saved, k);
    if n < |saved[k]| {
      assert saved[k][n] in saved[k];
    } else if k + 1 < |saved| {
      ConcatAt(saved, k + 1);
    } else {
      assert saved[..k + 1] == saved;
    }
  }

  lemma EntryIsGood(c: Clause, missing: Clause, lits: Clause, id: int, maxVar: nat)
    requires c != [] && (forall x :: x in c ==> x != 0 && Abs(x) <= maxVar)
    requires (forall x :: x in missing ==> x in lits) && (forall x :: x in lits ==> x != 0 && Abs(x) <= maxVar)
    ensures GoodEntry(Entry([c[0]], id, c + missing), maxVar)
    ensures Lits(c) <= Lits(c + missing) <= Lits(c) + Lits(missing)
  {
    assert c[0] in c;
  }

  lemma EntriesPush(es: seq<Entry>, saved: seq<Clause>, k: nat, missing: set<int>, e: Entry)
    requires k < |saved| && saved[k] != [] && EntriesOf(es, saved[..k], missing)
    requires e.cube == [saved[k][0]] && Lits(saved[k]) <= Lits(e.clause) <= Lits(saved[k]) + missing
    ensures EntriesOf(es + [e], saved[..k + 1], missing)
  {
    assert saved[..k + 1] == saved[..k] + [saved[k]];
  }

  /** Completes the entry for the saved clause `k`. */
  method FinishEntry(s: Internal, c: nat, covered: Clause, withMissing: bool, ghost saved: seq<Clause>, ghost k: nat,
                     ghost id: int, ghost es: seq<Entry>) returns (ghost es': seq<Entry>)
    requires c < |s.clauses| && GoodRecord(s.clauses[c], s.external.maxVar) && GoodSaved(saved, s.external.maxVar)
    requires k < |saved| && s.external.Open(saved[k][0], id, saved[k])
    requires EntriesOf(es, saved[..k], Lits(RootAssigned(s.clauses[c].lits, s.fixedLits)))
    requires RootFree(s.clauses[c].lits, s.fixedLits) <= covered
    requires forall x :: x in covered ==> !HasRootValue(x, s.fixedLits)
    modifies s.external`extension, s.external`entries
    ensures s.external.Valid() && |es'| == |es| + 1 && es' == es + [es'[|es|]]
    ensures s.external.entries == old(s.external.entries) + [es'[|es|]]
    ensures EntriesOf(es', saved[..k + 1], Lits(RootAssigned(s.clauses[c].lits, s.fixedLits)))
    ensures es'[|es|] == Entry([saved[k][0]], id,
                               saved[k] + if withMissing then RootAssigned(s.clauses[c].lits, s.fixedLits) else [])
  {
    hide RootAssigned, RootFree, Flatten, GoodEntry, EntriesOf;
    ghost var lits, missing := s.clauses[c].lits, RootAssigned(s.clauses[c].lits, s.fixedLits);
    GoodLitsOf(s.clauses[c], s.external.maxVar, s.fixedLits);
    ghost var added := [];
    if withMissing {
      added := PushMissing(s.external, s.clauses[c].lits, covered, s.fixedLits, saved[k][0], id, saved[k]);
    } else {
      assert saved[k] + added == saved[k];
    }
    EntryIsGood(saved[k], added, lits, id, s.external.maxVar);
    ghost var e := Entry([saved[k][0]], id, saved[k] + added);
    s.external.CloseEntry(saved[k][0], id, saved[k] + added);
    assert Lits(added) <= Lits(missing);
    EntriesPush(es, saved, k, Lits(missing), e);
    es' := es + [e];
  }

  /** Entries for the first saved clauses, under consecutive identifiers; the first `n` ones have the missing
      literals as well. */
  ghost predicate CopiedAs(es: seq<Entry>, saved: seq<Clause>, missing: Clause, n: nat, firstId: int) {
    && |es| <= |saved|
    && forall k :: 0 <= k < |es| ==>
         saved[k] != [] && es[k] == Entry([saved[k][0]], firstId + k, saved[k] + if k < n then missing else [])
  }

  lemma NothingCopied(saved: seq<Clause>, missing: Clause, firstId: int)
    ensures CopiedAs([], saved, missing, 0, firstId)
  {
  }

  lemma CopiedNext(es: seq<Entry>, es': seq<Entry>, saved: seq<Clause>, missing: Clause, firstId: int, id: int,
                   withMissing: bool)
    requires CopiedAs(es, saved, missing, |es|, firstId) && |es| < |saved| && id == firstId + |es|
    requires |es'| == |es| + 1 && es' == es + [es'[|es|]] && saved[|es|] != []
    requires es'[|es|] == Entry([saved[|es|][0]], id, saved[|es|] + if withMissing then missing else [])
    ensures CopiedAs(es', saved, missing, if withMissing then |es'| else |es|, firstId)
  {
  }

  /** Completes the entry before, if there is one, and starts the one for the saved clause `k`. */
  method NextEntry(s: Internal, c: nat, covered: Clause, first: int, alreadyPushed: bool, lastId0: int,
                   ghost saved: seq<Clause>, ghost k: nat, ghost es0: seq<Entry>, ghost before: seq<Entry>,
                   ghost firstId: int)
    returns (lastId: int, ghost es: seq<Entry>)
    requires c < |s.clauses| && GoodRecord(s.clauses[c], s.external.maxVar) && GoodSaved(saved, s.external.maxVar)
    requires k < |saved| && saved[k] != [] && first == saved[k][0] && (alreadyPushed <==> k > 0)
    requires s.external.entries == before + es0 && s.clauseId == firstId + k - 1
    requires k == 0 ==> s.external.Valid() && es0 == []
    requires k > 0 ==> s.external.Open(saved[k - 1][0], lastId0, saved[k - 1]) && |es0| == k - 1
    requires k > 0 ==> EntriesOf(es0, saved[..k - 1], Lits(RootAssigned(s.clauses[c].lits, s.fixedLits)))
    requires CopiedAs(es0, saved, RootAssigned(s.clauses[c].lits, s.fixedLits), |es0|, firstId)
    requires k > 0 ==> lastId0 == s.clauseId
    requires RootFree(s.clauses[c].lits, s.fixedLits) <= covered
    requires forall x :: x in covered ==> !HasRootValue(x, s.fixedLits)
    modifies s`clauseId, s.external`extension, s.external`entries
    ensures s.external.Open(first, lastId, []) && s.external.entries == before + es
    ensures lastId == s.clauseId == old(s.clauseId) + 1 && |es| == k
    ensures EntriesOf(es, saved[..k], Lits(RootAssigned(s.clauses[c].lits, s.fixedLits)))
    ensures CopiedAs(es, saved, RootAssigned(s.clauses[c].lits, s.fixedLits), |es|, firstId)
  {
    hide RootAssigned, RootFree, Flatten, GoodEntry, EntriesOf, HasRootValue, CopiedAs;
    ghost var missing := RootAssigned(s.clauses[c].lits, s.fixedLits);
    es := es0;
    if alreadyPushed {
      es := FinishEntry(s, c, covered, true, saved, k - 1, lastId0, es0);
      CopiedNext(es0, es, saved, missing, firstId, lastId0, true);
      assert before + es0 + [es[|es0|]] == before + es;
    } else {
      NothingYet(saved, Lits(missing));
    }
    s.clauseId := s.clauseId + 1;
    lastId := s.clauseId;
    s.external.StartEntry(first, lastId);
  }

  /** Copies the private stack to the actual one; every entry but the last one, and the last
      one if a proof is written, gets the missing literals of the clause. */
  method CopyExtension(s: Internal, c: nat, extend: seq<int>, covered: Clause, proof: bool, ghost saved: seq<Clause>)
    returns (ghost es: seq<Entry>)
    requires s.Valid() && c < |s.clauses| && extend == Concat(saved) && saved != []
    requires GoodSaved(saved, s.external.maxVar)
    requires RootFree(s.clauses[c].lits, s.fixedLits) <= covered
    requires forall x :: x in covered ==> !HasRootValue(x, s.fixedLits)
    modifies s`clauseId, s.external`extension, s.external`entries
    ensures s.external.Valid() && s.external.entries == old(s.external.entries) + es
    ensures EntriesOf(es, saved, Lits(RootAssigned(s.clauses[c].lits, s.fixedLits)))
    ensures |es| == |saved| && s.clauseId == old(s.clauseId) + |saved|
    ensures CopiedAs(es, saved, RootAssigned(s.clauses[c].lits, s.fixedLits), if proof then |saved| else |saved| - 1,
                     old(s.clauseId) + 1)
  {
    hide CopiedAs, Concat, RootAssigned, RootFree, Flatten, GoodEntry, EntriesOf, HasRootValue, GoodSaved;
    assert GoodRecord(s.clauses[c], s.external.maxVar);
    ghost var missing := RootAssigned(s.clauses[c].lits, s.fixedLits);
    var prev := INT_MIN;
    var alreadyPushed := false;
    var lastId := 0;
    ghost var k, buf := 0, [];
    es := [];
    NothingCopied(saved, missing, s.clauseId + 1);
    assert saved[..0] == [] && Concat([]) == [] by { ConcatEmpty(); }
    ConcatAt(saved, 0);
    for i := 0 to |extend|
      invariant k <= |saved| && (alreadyPushed <==> k > 0) && s.external.entries == old(s.external.entries) + es
      invariant k == 0 ==> s.external.Valid() && es == [] && i <= 1 && (prev == 0 <==> i == 1)
      invariant k > 0 ==> 1 <= |buf| <= |saved[k - 1]| && buf == saved[k - 1][..|buf|]
      invariant k > 0 ==> s.external.Open(saved[k - 1][0], lastId, buf) && EntriesOf(es, saved[..k - 1], Lits(missing))
      invariant s.clauseId == old(s.clauseId) + k && (k > 0 ==> lastId == s.clauseId && |es| == k - 1)
      invariant CopiedAs(es, saved, missing, |es|, old(s.clauseId) + 1)
      invariant prev != 0 && k > 0 ==> i == |Concat(saved[..k - 1])| + 1 + |buf|
      invariant prev == 0 ==> k < |saved| && i == |Concat(saved[..k])| + 1 && (k > 0 ==> |buf| == |saved[k - 1]|)
    {
      var other := extend[i];
      if prev == 0 {
        NextElement(saved, k, 0, i, s.external.maxVar);
        assert k > 0 ==> buf == saved[k - 1];
        lastId, es := NextEntry(s, c, covered, other, alreadyPushed, lastId, saved, k, es, old(s.external.entries),
                                old(s.clauseId) + 1);
        k, buf := k + 1, [];
        alreadyPushed := true;
      } else if k > 0 {
        NextElement(saved, k - 1, |buf|, i, s.external.maxVar);
      }
      if other != 0 {
        s.external.PushClauseLiteral(other, saved[k - 1][0], lastId, buf);
        buf := buf + [other];
      }
      prev := other;
    }
    NextElementEnds(saved, k, |buf|, |extend|, prev, s.external.maxVar);
    assert buf == saved[k - 1];
    ghost var es0 := es;
    es := FinishEntry(s, c, covered, proof, saved, k - 1, lastId, es);
    CopiedNext(es0, es, saved, missing, old(s.clauseId) + 1, lastId, proof);
    assert saved[..k] == saved;
  }

  lemma ConcatEmpty()
    ensures Concat([]) == []
  {
  }

  lemma NothingYet(saved: seq<Clause>, missing: set<int>)
    ensures EntriesOf([], [], missing)
  {
  }

  lemma GoodLitsOf(r: ClauseRecord, maxVar: nat, fixedLits: set<int>)
    requires GoodRecord(r, maxVar)
    ensures forall x :: x in r.lits ==> x != 0 && Abs(x) <= maxVar
    ensures forall x :: x in RootAssigned(r.lits, fixedLits) ==> x in r.lits
  {
    RootMembers(r.lits, fixedLits);
  }

  /** The stack can only end with the last clause. */
  lemma NextElementEnds(saved: seq<Clause>, k: nat, n: nat, i: nat, prev: int, maxVar: nat)
    requires GoodSaved(saved, maxVar) && saved != [] && i == |Concat(saved)| && k <= |saved|
    requires k == 0 ==> i <= 1 && (prev == 0 <==> i == 1)
    requires k > 0 ==> n <= |saved[k - 1]|
    requires prev != 0 && k > 0 ==> i == |Concat(saved[..k - 1])| + 1 + n
    requires prev == 0 ==> k < |saved| && i == |Concat(saved[..k])| + 1
    ensures k == |saved| && n == |saved[k - 1]| && prev != 0
  {
    hide Concat;
    ConcatAt(saved, 0);
    if prev == 0 {
      ConcatAt(saved, k);
    } else if k > 0 {
      NextElement(saved, k - 1, n, i, maxVar);
    }
  }
}
