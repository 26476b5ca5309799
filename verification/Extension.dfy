/** The extension stack: a flat vector of integers from which an assignment of the
    original formula is rebuilt after clauses were removed. */
module Extension {
  import opened Cnf

  /** A removed clause and the witness literals to be made true when it is falsified. */
  datatype Entry = Entry(cube: Clause, id: int, clause: Clause)

  // ---------------------------------------------------------------- semantics

  /** The literals of a witness are made true from the last one to the first one. */
  function SetAll(m: Assignment, w: Clause): Assignment
    decreases |w|
  {
    if w == [] then m else SetAll(SetTrue(m, w[|w| - 1]), w[..|w| - 1])
  }

  ghost function Undo(e: Entry, m: Assignment): Assignment {
    if Satisfies(m, e.clause) then m else SetAll(m, e.cube)
  }

  /** Entries are undone from the last one pushed to the first one pushed. */
  ghost function Replay(es: seq<Entry>, m: Assignment): Assignment {
    if es == [] then m else Replay(es[..|es| - 1], Undo(es[|es| - 1], m))
  }

  lemma {:induction false} ReplayConcat(es: seq<Entry>, fs: seq<Entry>, m: Assignment)
    ensures Replay(es + fs, m) == Replay(es, Replay(fs, m))
    decreases |fs|
  {
    if fs == [] {
      assert es + fs == es;
    } else {
      var n := |fs| - 1;
      assert (es + fs)[..|es + fs| - 1] == es + fs[..n];
      ReplayConcat(es, fs[..n], Undo(fs[n], m));
    }
  }

  /** A witness without complementary literals: afterwards exactly its literals are forced. */
  lemma {:induction false} SetAllEffect(m: Assignment, w: Clause, lit: int)
    requires 0 !in w && lit != 0
    requires lit !in w || -lit !in w
    ensures True(SetAll(m, w), lit) ==
            (if lit in w then true else if -lit in w then false else True(m, lit))
    decreases |w|
  {
    if w != [] {
      var n := |w| - 1;
      assert w == w[..n] + [w[n]];
      SetAllEffect(SetTrue(m, w[n]), w[..n], lit);
      TrueAfterSet(m, w[n], lit);
    }
  }

  // ---------------------------------------------------------------- encoding

  const TWO32 := 0x1_0000_0000

  /** Conversion to a signed 32-bit integer. */
  function Int32(x: int): int {
    var r := x % TWO32;
    if r < 0x8000_0000 then r else r - TWO32
  }

  /** The 64-bit shift is narrowed to 32 bits before it is stored. */
  function HighWord(id: int): int {
    Int32((id * TWO32) % (TWO32 * TWO32))
  }

  function LowWord(id: int): int {
    Int32(id % TWO32)
  }

  /** The identifier that the traversals compute from the two stored words. */
  function RecoveredId(id: int): int {
    HighWord(id) * TWO32 + LowWord(id)
  }

  lemma HighWordIsZero(id: int)
    ensures HighWord(id) == 0
  {
    assert id * TWO32 == id % TWO32 * TWO32 + id / TWO32 * (TWO32 * TWO32) by {
      assert id == id % TWO32 + id / TWO32 * TWO32;
    }
    assert (id * TWO32) % (TWO32 * TWO32) == id % TWO32 * TWO32;
  }

  /** Identifiers survive the stack exactly when they fit into 31 bits. */
  lemma IdRoundTrip(id: int)
    requires 0 < id < 0x8000_0000_0000_0000
    ensures RecoveredId(id) == id <==> id < 0x8000_0000
  {
    HighWordIsZero(id);
  }

  function Encode(e: Entry): seq<int> {
    [0] + e.cube + [0, HighWord(e.id), LowWord(e.id), 0] + e.clause
  }

  lemma {:induction false} Associate(a: seq<int>, b: seq<int>, c: seq<int>)
    ensures (a + b) + c == a + (b + c)
  {
  }

  lemma {:induction false} Layout(base: seq<int>, w: Clause, high: int, low: int, c: Clause)
    ensures base + [0] + w + [0] + [high, low] + [0] + c
         == base + ([0] + w + [0, high, low, 0] + c)
  {
  }

  lemma {:induction false} LayoutAt(s: seq<int>, base: nat, w: Clause, high: int, low: int, c: Clause)
    requires base + 5 + |w| + |c| <= |s|
    requires s[base..base + 5 + |w| + |c|] == [0] + w + [0, high, low, 0] + c
    ensures s[base] == 0 && s[base + 1 + |w|] == 0
    ensures s[base + 2 + |w|] == high && s[base + 3 + |w|] == low && s[base + 4 + |w|] == 0
    ensures forall j :: 0 <= j < |w| ==> s[base + 1 + j] == w[j]
    ensures forall j :: 0 <= j < |c| ==> s[base + 5 + |w| + j] == c[j]
  {
    var t := s[base..base + 5 + |w| + |c|];
    assert forall j :: 0 <= j < |t| ==> t[j] == s[base + j];
    assert t[0] == 0 && t[1 + |w|] == 0 && t[2 + |w|] == high && t[3 + |w|] == low && t[4 + |w|] == 0;
    assert forall j :: 0 <= j < |w| ==> t[1 + j] == w[j];
    assert forall j :: 0 <= j < |c| ==> t[5 + |w| + j] == c[j];
  }

  lemma EncodeIs(e: Entry)
    ensures Encode(e) == [0] + e.cube + [0, HighWord(e.id), LowWord(e.id), 0] + e.clause
    ensures |Encode(e)| == 5 + |e.cube| + |e.clause|
  {
    hide HighWord, LowWord;
  }

  lemma {:induction false} InTheMiddle(s: seq<int>, a: seq<int>, b: seq<int>, c: seq<int>)
    requires s == a + b + c
    ensures |s| >= |a| + |b| && s[|a|..|a| + |b|] == b
  {
  }

  function Flatten(es: seq<Entry>): seq<int> {
    if es == [] then [] else Flatten(es[..|es| - 1]) + Encode(es[|es| - 1])
  }

  ghost predicate GoodEntry(e: Entry, maxVar: nat) {
    && 0 !in e.cube && 0 !in e.clause && e.clause != []
    && (forall lit :: lit in e.cube ==> Abs(lit) <= maxVar)
    && (forall lit :: lit in e.clause ==> Abs(lit) <= maxVar)
  }

  lemma {:induction false} FlattenNonEmpty(es: seq<Entry>)
    ensures |Flatten(es)| == 0 <==> es == []
  {
  }

  lemma {:induction false} FlattenPush(es: seq<Entry>, e: Entry)
    ensures Flatten(es + [e]) == Flatten(es) + Encode(e)
  {
    assert (es + [e])[..|es + [e]| - 1] == es;
  }

  /** The first entry sits at the bottom of the flat vector. */
  lemma {:induction false} FlattenFirst(es: seq<Entry>)
    requires es != []
    ensures Flatten(es) == Encode(es[0]) + Flatten(es[1..])
  {
    hide Encode;
    var n := |es| - 1;
    if n == 0 {
      assert es[..n] == [] && es[1..] == [];
      assert Flatten(es) == [] + Encode(es[0]);
    } else {
      FlattenFirst(es[..n]);
      assert es[..n][1..] == es[1..][..n - 1];
      Associate(Encode(es[0]), Flatten(es[..n][1..]), Encode(es[n]));
    }
  }

  lemma {:induction false} FlattenSplit(es: seq<Entry>, k: nat)
    requires k <= |es|
    ensures Flatten(es) == Flatten(es[..k]) + Flatten(es[k..])
    decreases |es| - k
  {
    hide Encode;
    if k == |es| {
      assert es[..k] == es;
    } else {
      FlattenSplit(es, k + 1);
      FlattenFirst(es[k..]);
      FlattenPush(es[..k], es[k]);
      assert es[..k] + [es[k]] == es[..k + 1];
      assert es[k..][1..] == es[k + 1..];
      Associate(Flatten(es[..k]), Encode(es[k]), Flatten(es[k + 1..]));
    }
  }

  // ---------------------------------------------------------------- the external solver

  /** The assignment stored in a vector of truth values. */
  ghost function AssignmentOf(vals: seq<bool>): (m: Assignment)
    ensures forall i :: 0 < i < |vals| ==> (i in m <==> vals[i])
    ensures forall i :: i in m ==> 0 < i < |vals|
  {
    set i | 0 < i < |vals| && vals[i]
  }

  /** What a traversal reports: the entry with its identifier as recovered. */
  function Reported(e: Entry): Entry {
    e.(id := RecoveredId(e.id))
  }

  /** The calls a traversal makes: it stops after the first rejected entry. */
  function Visits(es: seq<Entry>, accept: Entry -> bool): seq<Entry> {
    if es == [] then []
    else [Reported(es[0])] + if accept(Reported(es[0])) then Visits(es[1..], accept) else []
  }

  /** What a traversal that visits the entries in this order reports: witness and clause of each, and its
      identifier unless that was too large, up to the first one that is not accepted. */
  ghost predicate VisitedAre(es: seq<Entry>, visited: seq<Entry>, accept: Entry -> bool, ok: bool) {
    && |visited| <= |es|
    && (forall k :: 0 <= k < |visited| ==>
          visited[k].cube == es[k].cube && visited[k].clause == es[k].clause
          && (0 < es[k].id < 0x8000_0000 ==> visited[k].id == es[k].id))
    && (forall k :: 0 <= k < |visited| - 1 ==> accept(visited[k]))
    && (|visited| < |es| ==> !ok)
    && (!ok ==> visited != [] && !accept(visited[|visited| - 1]))
    && (ok && visited != [] ==> accept(visited[|visited| - 1]))
  }

  lemma {:induction false} VisitsMean(es: seq<Entry>, accept: Entry -> bool)
    ensures VisitedAre(es, Visits(es, accept), accept, AllAccepted(es, accept))
    decreases |es|
  {
    hide VisitedAre, Reported, AllAccepted;
    if es == [] {
      NothingToVisit(accept);
    } else {
      var r, rest := Reported(es[0]), Visits(es[1..], accept);
      VisitsMean(es[1..], accept);
      AcceptedStep(es, accept);
      VisitedStep(es, r, rest, accept, AllAccepted(es[1..], accept));
    }
  }

  lemma NothingToVisit(accept: Entry -> bool)
    ensures VisitedAre([], [], accept, AllAccepted([], accept))
  {
  }

  lemma AcceptedStep(es: seq<Entry>, accept: Entry -> bool)
    requires es != []
    ensures AllAccepted(es, accept) <==> accept(Reported(es[0])) && AllAccepted(es[1..], accept)
  {
    assert forall e :: e in es <==> e == es[0] || e in es[1..];
  }

  lemma VisitedStep(es: seq<Entry>, r: Entry, rest: seq<Entry>, accept: Entry -> bool, ok: bool)
    requires es != [] && r == Reported(es[0]) && VisitedAre(es[1..], rest, accept, ok)
    ensures VisitedAre(es, [r] + if accept(r) then rest else [], accept, accept(r) && ok)
  {
    hide RecoveredId;
    if es[0].id > 0 {
      SmallId(es[0].id);
    }
    var v := [r] + if accept(r) then rest else [];
    forall k | 1 <= k < |v| ensures v[k] == rest[k - 1] && es[k] == es[1..][k - 1] {
    }
  }

  lemma SmallId(id: int)
    requires id > 0
    ensures id < 0x8000_0000 ==> RecoveredId(id) == id
  {
    if id < 0x8000_0000 {
      IdRoundTrip(id);
    }
  }

  /** The first entries have been visited and accepted. */
  ghost predicate Traversed(es: seq<Entry>, accept: Entry -> bool, visited: seq<Entry>) {
    && |visited| <= |es| && Visits(es, accept) == visited + Visits(es[|visited|..], accept)
    && forall j :: 0 <= j < |visited| ==> accept(Reported(es[j]))
  }

  lemma TraversalStarts(es: seq<Entry>, accept: Entry -> bool)
    ensures Traversed(es, accept, [])
  {
    hide Visits, Reported;
    assert es[0..] == es;
  }

  lemma TraversalStep(es: seq<Entry>, accept: Entry -> bool, visited: seq<Entry>, e: Entry)
    requires Traversed(es, accept, visited) && |visited| < |es| && e == Reported(es[|visited|])
    ensures accept(e) ==> Traversed(es, accept, visited + [e])
    ensures !accept(e) ==> VisitedAre(es, visited + [e], accept, false)
  {
    hide Visits, Reported, VisitedAre;
    VisitsStep(es, visited, accept);
    if !accept(e) {
      assert es[|visited|] in es;
      assert visited + [e] == Visits(es, accept);
      VisitsMean(es, accept);
    }
  }

  lemma TraversalEnds(es: seq<Entry>, accept: Entry -> bool, visited: seq<Entry>)
    requires Traversed(es, accept, visited) && |visited| == |es|
    ensures VisitedAre(es, visited, accept, true)
  {
    hide Visits, Reported, VisitedAre;
    VisitsEmpty(es[|visited|..], accept);
    assert visited == Visits(es, accept);
    VisitsMean(es, accept);
  }

  predicate AllAccepted(es: seq<Entry>, accept: Entry -> bool) {
    forall e :: e in es ==> accept(Reported(e))
  }

  function Reverse<T>(s: seq<T>): (r: seq<T>)
    ensures |r| == |s| && forall j :: 0 <= j < |s| ==> r[j] == s[|s| - 1 - j]
  {
    if s == [] then [] else [s[|s| - 1]] + Reverse(s[..|s| - 1])
  }

  lemma {:induction false} VisitsEmpty(es: seq<Entry>, accept: Entry -> bool)
    ensures es == [] ==> Visits(es, accept) == []
  {
  }

  lemma {:induction false} VisitsStep(es: seq<Entry>, visited: seq<Entry>, accept: Entry -> bool)
    requires |visited| < |es|
    requires Visits(es, accept) == visited + Visits(es[|visited|..], accept)
    ensures var r := Reported(es[|visited|]);
            Visits(es, accept) == visited + [r] + if accept(r) then Visits(es[|visited| + 1..], accept) else []
  {
    hide Reported;
    var t := es[|visited|..];
    assert t[0] == es[|visited|] && t[1..] == es[|visited| + 1..];
  }

  lemma ReplayLast(es: seq<Entry>, k: nat, m: Assignment)
    requires k < |es|
    ensures Replay(es[..k + 1], m) == Replay(es[..k], Undo(es[k], m))
  {
    assert es[..k + 1][..k] == es[..k];
  }

  lemma ReplayNone(m: Assignment)
    ensures Replay([], m) == m
  {
  }

  /** The variable is in no witness. */
  ghost predicate NoWitness(es: seq<Entry>, i: int) {
    forall e :: e in es ==> i !in e.cube && -i !in e.cube
  }

  lemma {:induction false} SetAllOthers(m: Assignment, w: Clause, i: int)
    requires i > 0 && i !in w && -i !in w
    ensures i in SetAll(m, w) <==> i in m
    decreases |w|
  {
    if w != [] {
      var n := |w| - 1;
      assert w[n] in w;
      SetAllOthers(SetTrue(m, w[n]), w[..n], i);
    }
  }

  lemma {:induction false} OthersKeepValue(es: seq<Entry>, m: Assignment)
    ensures forall i :: i > 0 && NoWitness(es, i) ==> (i in Replay(es, m) <==> i in m)
    decreases |es|
  {
    if es != [] {
      var n := |es| - 1;
      var e := es[n];
      OthersKeepValue(es[..n], Undo(e, m));
      forall i | i > 0 && NoWitness(es, i) ensures i in Replay(es, m) <==> i in m {
        assert e in es && NoWitness(es[..n], i);
        SetAllOthers(m, e.cube, i);
      }
    }
  }

  class External {
    var maxVar: nat
    var vals: seq<bool>
    var extension: seq<int>
    var extended: bool
    ghost var entries: seq<Entry>

    ghost predicate Valid()
      reads this
    {
      && extension == Flatten(entries)
      && forall e :: e in entries ==> GoodEntry(e, maxVar)
    }

    constructor (maxVar: nat)
      ensures Valid() && entries == [] && vals == [] && !extended && this.maxVar == maxVar
    {
      this.maxVar := maxVar;
      vals, extension, extended, entries := [], [], false, [];
    }

    /** The truth value of a literal; variables beyond the vector are false. */
    function IVal(elit: int): (r: int)
      reads this
      ensures elit > 0 ==> (r == elit <==> elit <= maxVar && elit < |vals| && vals[elit])
      ensures elit < 0 ==> (r == elit <==> !(-elit <= maxVar && -elit < |vals| && vals[-elit]))
      ensures r == elit || r == -elit
    {
      var eidx := Abs(elit);
      var val := if eidx <= maxVar && eidx < |vals| then vals[eidx] else false;
      if (elit < 0) != val then elit else -elit
    }

    lemma IValIsTrue(elit: int)
      requires elit != 0 && Abs(elit) <= maxVar
      ensures (IVal(elit) == elit) == True(AssignmentOf(vals), elit)
    {
    }

    // ------------------------------------------------------------ pushing

    method PushZero()
      modifies this`extension
      ensures extension == old(extension) + [0]
    {
      extension := extension + [0];
    }

    method PushId(id: int)
      modifies this`extension
      ensures extension == old(extension) + [HighWord(id), LowWord(id)]
    {
      extension := extension + [HighWord(id)];
      extension := extension + [LowWord(id)];
    }

    method PushLiteral(lit: int)
      modifies this`extension
      ensures extension == old(extension) + [lit]
    {
      extension := extension + [lit];
    }

    method PushLiterals(c: Clause)
      modifies this`extension
      ensures extension == old(extension) + c
    {
      for i := 0 to |c|
        invariant extension == old(extension) + c[..i]
      {
        PushLiteral(c[i]);
        assert c[..i + 1] == c[..i] + [c[i]];
      }
      assert c[..|c|] == c;
    }

    /** Pushes a clause whose witness literals are already on the stack. */
    method PushClause(c: Clause, id: int, ghost w: Clause)
      requires GoodEntry(Entry(w, id, c), maxVar)
      requires extension == Flatten(entries) + [0] + w
      requires forall e :: e in entries ==> GoodEntry(e, maxVar)
      modifies this`extension, this`entries
      ensures Valid() && entries == old(entries) + [Entry(w, id, c)]
    {
      hide HighWord, LowWord, Flatten;
      ghost var base := Flatten(entries);
      Layout(base, w, HighWord(id), LowWord(id), c);
      PushZero();
      PushId(id);
      PushZero();
      PushLiterals(c);
      ghost var e := Entry(w, id, c);
      FlattenPush(entries, e);
      assert extension == base + Encode(e);
      entries := entries + [e];
    }

    method PushClauseWithPivot(c: Clause, id: int, pivot: int)
      requires Valid() && GoodEntry(Entry([pivot], id, c), maxVar)
      modifies this`extension, this`entries
      ensures Valid() && entries == old(entries) + [Entry([pivot], id, c)]
    {
      PushZero();
      PushLiteral(pivot);
      PushClause(c, id, [pivot]);
    }

    method PushBinaryClause(id: int, pivot: int, other: int)
      requires Valid() && GoodEntry(Entry([pivot], id, [pivot, other]), maxVar)
      modifies this`extension, this`entries
      ensures Valid() && entries == old(entries) + [Entry([pivot], id, [pivot, other])]
    {
      hide HighWord, LowWord, Flatten;
      PushZero();
      PushLiteral(pivot);
      PushZero();
      PushId(id);
      PushZero();
      PushLiteral(pivot);
      PushLiteral(other);
      Layout(Flatten(entries), [pivot], HighWord(id), LowWord(id), [pivot, other]);
      ghost var e := Entry([pivot], id, [pivot, other]);
      FlattenPush(entries, e);
      assert extension == Flatten(entries) + Encode(e);
      entries := entries + [e];
    }

    // ------------------------------------------------------------ pushing literal by literal

    /** An entry with witness `w` has been started; `c` is what its clause has so far. */
    ghost predicate Open(w: int, id: int, c: Clause)
      reads this
    {
      && extension == Flatten(entries) + [0] + [w] + [0] + [HighWord(id), LowWord(id)] + [0] + c
      && forall e :: e in entries ==> GoodEntry(e, maxVar)
    }

    method StartEntry(w: int, id: int)
      requires Valid()
      modifies this`extension
      ensures Open(w, id, [])
    {
      hide HighWord, LowWord, Flatten;
      PushZero();
      PushLiteral(w);
      PushZero();
      PushId(id);
      PushZero();
      assert extension + [] == extension;
    }

    method PushClauseLiteral(lit: int, ghost w: int, ghost id: int, ghost c: Clause)
      requires Open(w, id, c)
      modifies this`extension
      ensures Open(w, id, c + [lit])
    {
      hide HighWord, LowWord, Flatten;
      ghost var base := Flatten(entries) + [0] + [w] + [0] + [HighWord(id), LowWord(id)] + [0];
      PushLiteral(lit);
      Associate(base, c, [lit]);
    }

    /** The clause of the entry is complete. */
    ghost method CloseEntry(w: int, id: int, c: Clause)
      requires Open(w, id, c) && GoodEntry(Entry([w], id, c), maxVar)
      modifies this`entries
      ensures Valid() && entries == old(entries) + [Entry([w], id, c)]
    {
      hide HighWord, LowWord, Flatten;
      Layout(Flatten(entries), [w], HighWord(id), LowWord(id), c);
      ghost var e := Entry([w], id, c);
      FlattenPush(entries, e);
      assert extension == Flatten(entries) + Encode(e);
      entries := entries + [e];
    }

    // ------------------------------------------------------------ extending

    method Import(e2i: seq<int>, ival: int -> int)
      requires |e2i| == maxVar + 1
      modifies this`vals
      ensures forall i :: i in AssignmentOf(vals) <==>
                if 1 <= i <= maxVar && e2i[i] != 0 then ival(e2i[i]) > 0 else i in old(AssignmentOf(vals))
    {
      ghost var m := AssignmentOf(vals);
      var i := 1;
      while i <= maxVar
        invariant 1 <= i <= maxVar + 1
        invariant forall k :: k in AssignmentOf(vals) <==>
                    if 1 <= k < i && e2i[k] != 0 then ival(e2i[k]) > 0 else k in m
      {
        var ilit := e2i[i];
        if ilit != 0 {
          if i >= |vals| {
            vals := vals + seq(i + 1 - |vals|, _ => false);
          }
          vals := vals[i := ival(ilit) > 0];
        }
        i := i + 1;
      }
    }

    /** Makes the literal true, growing the vector if necessary. */
    method MakeTrue(lit: int)
      requires lit != 0 && Abs(lit) <= maxVar
      modifies this`vals
      ensures AssignmentOf(vals) == SetTrue(old(AssignmentOf(vals)), lit)
    {
      var tmp := IVal(lit);
      if tmp != lit {
        var idx := Abs(lit);
        if idx >= |vals| {
          vals := vals + seq(idx + 1 - |vals|, _ => false);
        }
        vals := vals[idx := !vals[idx]];
      }
    }

    /** Reads the clause of the entry that ends at `end` and evaluates it. */
    method ReadClause(end: nat, ghost k: nat) returns (i: nat, satisfied: bool)
      requires Valid() && k < |entries| && end == |Flatten(entries[..k + 1])|
      ensures i == |Flatten(entries[..k])| + 4 + |entries[k].cube|
      ensures satisfied == Satisfies(AssignmentOf(vals), entries[k].clause)
    {
      hide HighWord, LowWord, Flatten, AssignmentOf, True;
      ghost var e := entries[k];
      ghost var base := |Flatten(entries[..k])|;
      ghost var m := AssignmentOf(vals);
      Slice(k);
      assert GoodEntry(e, maxVar);
      satisfied := false;
      ghost var n := |e.clause|;
      i := end - 1;
      while extension[i] != 0
        invariant 0 <= n <= |e.clause| && i == base + 4 + |e.cube| + n
        invariant n > 0 ==> extension[i] == e.clause[n - 1] != 0
        invariant satisfied == exists j :: n <= j < |e.clause| && True(m, e.clause[j])
        decreases i
      {
        n := n - 1;
        var lit := extension[i];
        assert lit == e.clause[n];
        if !satisfied {
          IValIsTrue(lit);
          if IVal(lit) == lit {
            satisfied := true;
          }
        }
        i := i - 1;
      }
    }

    /** Makes the witness literals of an entry true, from the last one to the first one. */
    method FlipWitness(start: nat, ghost k: nat) returns (i: nat)
      requires Valid() && k < |entries| && start == |Flatten(entries[..k])| + |entries[k].cube|
      modifies this`vals
      ensures i == |Flatten(entries[..k])|
      ensures AssignmentOf(vals) == SetAll(old(AssignmentOf(vals)), entries[k].cube)
    {
      hide HighWord, LowWord, Flatten, AssignmentOf;
      ghost var e := entries[k];
      ghost var base := |Flatten(entries[..k])|;
      ghost var before := AssignmentOf(vals);
      Slice(k);
      assert GoodEntry(e, maxVar);
      ghost var p := |e.cube|;
      i := start;
      assert e.cube[..p] == e.cube;
      while extension[i] != 0
        invariant 0 <= p <= |e.cube| && i == base + p
        invariant p > 0 ==> extension[base + 1 + (p - 1)] == e.cube[p - 1] != 0
        invariant SetAll(AssignmentOf(vals), e.cube[..p]) == SetAll(before, e.cube)
        decreases i
      {
        p := p - 1;
        var lit := extension[i];
        assert e.cube[..p + 1][..p] == e.cube[..p];
        MakeTrue(lit);
        i := i - 1;
      }
    }

    /** Handles the entry that ends at position `end` and returns where it begins. */
    method UndoEntry(end: nat, ghost k: nat) returns (i: nat)
      requires Valid() && k < |entries| && end == |Flatten(entries[..k + 1])|
      modifies this`vals
      ensures i == |Flatten(entries[..k])| < end
      ensures AssignmentOf(vals) == Undo(entries[k], old(AssignmentOf(vals)))
    {
      hide HighWord, LowWord, Flatten, AssignmentOf;
      ghost var base := |Flatten(entries[..k])|;
      Slice(k);
      assert GoodEntry(entries[k], maxVar);
      var satisfied;
      i, satisfied := ReadClause(end, k);
      i := i - 1;
      i := i - 1;
      assert extension[i] == 0 by { HighWordIsZero(entries[k].id); }
      i := i - 1;
      i := i - 1;
      if satisfied {
        ghost var p := |entries[k].cube|;
        while extension[i] != 0
          invariant 0 <= p <= |entries[k].cube| && i == base + p
          invariant p > 0 ==> extension[base + 1 + (p - 1)] == entries[k].cube[p - 1] != 0
          decreases i
        {
          p := p - 1;
          i := i - 1;
        }
      } else {
        i := FlipWitness(i, k);
      }
    }

    /** Walks the stack backward and repairs the assignment for every falsified clause.  It starts from
        `init`: the internal values, and the previous value of a variable without internal counterpart.
        Variables that are in no witness keep that value. */
    method Extend(e2i: seq<int>, ival: int -> int) returns (ghost init: Assignment)
      requires Valid() && !extended && |e2i| == maxVar + 1
      modifies this`vals, this`extended
      ensures Valid() && extended
      ensures forall i :: i in init <==>
                if 1 <= i <= maxVar && e2i[i] != 0 then ival(e2i[i]) > 0 else i in old(AssignmentOf(vals))
      ensures AssignmentOf(vals) == Replay(entries, init)
      ensures forall i :: i > 0 && NoWitness(entries, i) ==>
                (i in AssignmentOf(vals) <==>
                  if i <= maxVar && e2i[i] != 0 then ival(e2i[i]) > 0 else i in old(AssignmentOf(vals)))
    {
      hide HighWord, LowWord, Flatten, AssignmentOf, Replay, Undo, GoodEntry, NoWitness;
      Import(e2i, ival);
      init := AssignmentOf(vals);
      OthersKeepValue(entries, init);
      var i := |extension|;
      ghost var k := |entries|;
      assert entries[..k] == entries;
      while i != 0
        invariant 0 <= k <= |entries|
        invariant i == |Flatten(entries[..k])|
        invariant Replay(entries[..k], AssignmentOf(vals)) == Replay(entries, init)
        decreases i
      {
        FlattenNonEmpty(entries[..k]);
        k := k - 1;
        ReplayLast(entries, k, AssignmentOf(vals));
        i := UndoEntry(i, k);
      }
      FlattenNonEmpty(entries[..k]);
      ReplayNone(AssignmentOf(vals));
      extended := true;
    }

    // ------------------------------------------------------------ traversing

    /** Reads the literals in front of a position back to the next zero. */
    method ReadRun(start: nat, ghost c: Clause) returns (i: nat, run: Clause)
      requires |c| <= start < |extension| && extension[start - |c|] == 0
      requires forall j :: 0 <= j < |c| ==> extension[start - |c| + 1 + j] == c[j] != 0
      ensures i == start - |c| && run == c
    {
      i, run := start, [];
      while extension[i] != 0
        invariant |run| <= |c| && i == start - |run|
        invariant |run| < |c| ==> extension[start - |c| + 1 + (|c| - 1 - |run|)] == c[|c| - 1 - |run|] != 0
        invariant forall j :: 0 <= j < |run| ==> run[j] == c[|c| - 1 - j]
        decreases i
      {
        run := run + [extension[i]];
        i := i - 1;
      }
      run := Reverse(run);
    }

    /** Reads the entry that ends at position `end` from its back to its front. */
    method ReadBackward(end: nat, ghost k: nat) returns (i: nat, e: Entry)
      requires Valid() && k < |entries| && end == |Flatten(entries[..k + 1])|
      ensures i == |Flatten(entries[..k])| < end
      ensures e == Reported(entries[k])
    {
      hide HighWord, LowWord, Flatten;
      ghost var x := entries[k];
      Slice(k);
      assert GoodEntry(x, maxVar);
      var clause, cube;
      i, clause := ReadRun(end - 1, x.clause);
      i := i - 1;
      var id := extension[i - 1] * TWO32 + extension[i];
      i := i - 2;
      i, cube := ReadRun(i - 1, x.cube);
      e := Entry(cube, id, clause);
    }

    method TraverseWitnessesBackward(unsat: bool, accept: Entry -> bool)
      returns (visited: seq<Entry>, ok: bool)
      requires Valid()
      ensures unsat ==> visited == [] && ok
      ensures !unsat ==> VisitedAre(Reverse(entries), visited, accept, ok)
    {
      hide Flatten, GoodEntry, Reported, Reverse, VisitedAre, Traversed;
      visited := [];
      if unsat {
        return visited, true;
      }
      var i := |extension|;
      ghost var k, rev := |entries|, Reverse(entries);
      TraversalStarts(rev, accept);
      assert entries[..k] == entries;
      while i != 0
        invariant 0 <= k <= |entries| && i == |Flatten(entries[..k])|
        invariant |visited| == |entries| - k && Traversed(rev, accept, visited)
        decreases i
      {
        FlattenNonEmpty(entries[..k]);
        k := k - 1;
        var e;
        i, e := ReadBackward(i, k);
        assert rev[|visited|] == entries[k];
        TraversalStep(rev, accept, visited, e);
        visited := visited + [e];
        if !accept(e) {
          return visited, false;
        }
      }
      FlattenNonEmpty(entries[..k]);
      TraversalEnds(rev, accept, visited);
      return visited, true;
    }

    /** Reads the entry whose leading zero was consumed already; `next` is the position behind
        the leading zero of the following entry, if there is one. */
    method ReadForward(start: nat, ghost k: nat) returns (next: nat, e: Entry)
      requires Valid() && k < |entries| && start == |Flatten(entries[..k])| + 1
      ensures e == Reported(entries[k])
      ensures next == |Flatten(entries[..k + 1])| + if k + 1 < |entries| then 1 else 0
      ensures next <= |extension| && (k + 1 < |entries| <==> next < |extension|)
    {
      hide HighWord, LowWord, Flatten;
      ghost var x := entries[k];
      ghost var base := |Flatten(entries[..k])|;
      Slice(k);
      assert GoodEntry(x, maxVar);
      if k + 1 < |entries| {
        Slice(k + 1);
      } else {
        assert entries[..k + 1] == entries;
      }
      var clause: Clause, cube: Clause := [], [];
      var i := start;
      while extension[i] != 0
        invariant |cube| <= |x.cube| && i == base + 1 + |cube|
        invariant |cube| < |x.cube| ==> extension[base + 1 + |cube|] == x.cube[|cube|] != 0
        invariant cube == x.cube[..|cube|]
        decreases |extension| - i
      {
        cube := cube + [extension[i]];
        i := i + 1;
      }
      i := i + 1;
      var id := extension[i] * TWO32 + extension[i + 1];
      i := i + 3;
      while i != |extension| && extension[i] != 0
        invariant |clause| <= |x.clause| && i == base + 5 + |x.cube| + |clause| <= |extension|
        invariant |clause| < |x.clause| ==>
                    extension[base + 5 + |x.cube| + |clause|] == x.clause[|clause|] != 0
        invariant clause == x.clause[..|clause|]
        decreases |extension| - i
      {
        clause := clause + [extension[i]];
        i := i + 1;
      }
      if i != |extension| {
        i := i + 1;
      }
      next, e := i, Entry(cube, id, clause);
    }

    method TraverseWitnessesForward(unsat: bool, accept: Entry -> bool)
      returns (visited: seq<Entry>, ok: bool)
      requires Valid()
      ensures unsat ==> visited == [] && ok
      ensures !unsat ==> VisitedAre(entries, visited, accept, ok)
    {
      hide Flatten, GoodEntry, Reported, VisitedAre, Traversed;
      visited := [];
      TraversalStarts(entries, accept);
      if unsat || |extension| == 0 {
        FlattenNonEmpty(entries);
        if entries == [] {
          TraversalEnds(entries, accept, visited);
        }
        return visited, true;
      }
      var i := 1;
      ghost var k := 0;
      assert |entries| > 0 by {
        FlattenNonEmpty(entries);
      }
      FlattenNonEmpty(entries[..0]);
      while true
        invariant 0 <= k < |entries| && k == |visited| && Traversed(entries, accept, visited)
        invariant i == |Flatten(entries[..k])| + 1
        decreases |entries| - k
      {
        var e;
        i, e := ReadForward(i, k);
        TraversalStep(entries, accept, visited, e);
        visited := visited + [e];
        if !accept(e) {
          return visited, false;
        }
        k := k + 1;
        if i == |extension| {
          TraversalEnds(entries, accept, visited);
          return visited, true;
        }
      }
    }

    /** Where the parts of entry k are found in the flat vector. */
    lemma Slice(k: nat)
      requires Valid() && k < |entries|
      ensures var e, base := entries[k], |Flatten(entries[..k])|;
              var end := base + 5 + |e.cube| + |e.clause|;
              && end == |Flatten(entries[..k + 1])| <= |extension|
              && extension[base] == 0
              && (forall j :: 0 <= j < |e.cube| ==> extension[base + 1 + j] == e.cube[j])
              && extension[base + 1 + |e.cube|] == 0
              && extension[base + 2 + |e.cube|] == HighWord(e.id)
              && extension[base + 3 + |e.cube|] == LowWord(e.id)
              && extension[base + 4 + |e.cube|] == 0
              && (forall j :: 0 <= j < |e.clause| ==> extension[base + 5 + |e.cube| + j] == e.clause[j])
    {
      hide HighWord, LowWord, Flatten, Encode;
      var e := entries[k];
      FlattenSplit(entries, k + 1);
      FlattenPush(entries[..k], e);
      assert entries[..k] + [e] == entries[..k + 1];
      EncodeIs(e);
      InTheMiddle(extension, Flatten(entries[..k]), Encode(e), Flatten(entries[k + 1..]));
      LayoutAt(extension, |Flatten(entries[..k])|, e.cube, HighWord(e.id), LowWord(e.id), e.clause);
    }
  }
}
