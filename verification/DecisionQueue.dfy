/** The queue of decision variables, in which bumped variables move to the front. */
module DecisionQueue {
  import opened Cnf
  import opened Lists

  /** Neighbours in the doubly linked list, zero at its ends. */
  datatype Link = Link(prev: int, next: int)

  // ---------------------------------------------------------------- lists and their links

  ghost predicate Unrepeated(order: seq<int>) {
    0 !in order && NoDuplicates(order)
  }

  ghost function Before(order: seq<int>, i: int): int {
    if 0 < i <= |order| then order[i - 1] else 0
  }

  ghost function After(order: seq<int>, i: int): int {
    if -1 <= i < |order| - 1 then order[i + 1] else 0
  }

  /** The links represent the list. */
  ghost predicate Linked(order: seq<int>, links: map<int, Link>, first: int, last: int) {
    && first == After(order, -1) && last == Before(order, |order|)
    && forall i :: 0 <= i < |order| ==> order[i] in links && links[order[i]] == Link(Before(order, i), After(order, i))
  }

  ghost function Remove(order: seq<int>, i: nat): seq<int>
    requires i < |order|
  {
    order[..i] + order[i + 1..]
  }

  /** The list without some of its members. */
  ghost function Others(order: seq<int>, moved: set<int>): seq<int> {
    if order == [] then [] else
      var n := |order| - 1;
      Others(order[..n], moved) + if order[n] in moved then [] else [order[n]]
  }

  /** Those members of the list. */
  ghost function Among(order: seq<int>, moved: set<int>): seq<int> {
    if order == [] then [] else
      var n := |order| - 1;
      Among(order[..n], moved) + if order[n] in moved then [order[n]] else []
  }

  /** Time stamps increase along the list and have been given out before. */
  ghost predicate Stamped(order: seq<int>, btab: map<int, int>, stamp: int) {
    && (forall i :: 0 <= i < |order| ==> order[i] in btab && btab[order[i]] <= stamp)
    && forall i, j :: 0 <= i < j < |order| ==> btab[order[i]] < btab[order[j]]
  }

  /** All variables with a larger stamp than the noted one are assigned. */
  ghost predicate SearchedDown(order: seq<int>, btab: map<int, int>, bumped: int, values: set<int>) {
    forall v :: v in order && v in btab && btab[v] > bumped ==> v in values
  }

  lemma RemoveMembers(order: seq<int>, i: nat)
    requires i < |order| && Unrepeated(order)
    ensures forall v :: v in Remove(order, i) <==> v in order && v != order[i]
    ensures Unrepeated(Remove(order, i))
  {
    var r := Remove(order, i);
    forall k | 0 <= k < |r| ensures r[k] == (if k < i then order[k] else order[k + 1]) { }
    forall v ensures v in r <==> v in order && v != order[i] {
      if v in order && v != order[i] {
        var k :| 0 <= k < |order| && order[k] == v;
        assert r[if k < i then k else k - 1] == v;
      }
    }
  }

  /** Unlinking a member. */
  lemma Unlinked(order: seq<int>, links: map<int, Link>, first: int, last: int, i: nat,
                 links': map<int, Link>, first': int, last': int)
    requires i < |order| && Unrepeated(order) && Linked(order, links, first, last)
    requires var l := links[order[i]];
             && first' == (if l.prev != 0 then first else l.next)
             && last' == (if l.next != 0 then last else l.prev)
             && forall v :: v in links ==>
                  && v in links'
                  && links'[v] == Link(if v == l.next && l.next != 0 then l.prev else links[v].prev,
                                       if v == l.prev && l.prev != 0 then l.next else links[v].next)
    ensures Linked(Remove(order, i), links', first', last')
  {
    var r := Remove(order, i);
    var l := links[order[i]];
    assert l == Link(Before(order, i), After(order, i));
    RemainingEnds(order, i);
    forall k | 0 <= k < |r| ensures r[k] in links' && links'[r[k]] == Link(Before(r, k), After(r, k)) {
      var j := if k < i then k else k + 1;
      assert r[k] == order[j] && links[order[j]] == Link(Before(order, j), After(order, j));
      hide Before, After, Remove, Unrepeated;
      RemainingNeighbours(order, i, k);
    }
  }

  lemma RemainingEnds(order: seq<int>, i: nat)
    requires i < |order| && Unrepeated(order)
    ensures var r := Remove(order, i);
            && After(r, -1) == (if Before(order, i) != 0 then After(order, -1) else After(order, i))
            && Before(r, |r|) == (if After(order, i) != 0 then Before(order, |order|) else Before(order, i))
  {
  }

  /** The neighbours of a remaining member: those of the removed one take each other's place. */
  lemma RemainingNeighbours(order: seq<int>, i: nat, k: nat)
    requires i < |order| && Unrepeated(order) && k < |Remove(order, i)|
    ensures var j, r := if k < i then k else k + 1, Remove(order, i);
            && (order[j] == Before(order, i) && Before(order, i) != 0 <==> j == i - 1)
            && (order[j] == After(order, i) && After(order, i) != 0 <==> j == i + 1)
            && Before(r, k) == (if j == i + 1 then Before(order, i) else Before(order, j))
            && After(r, k) == (if j == i - 1 then After(order, i) else After(order, j))
  {
  }

  /** Linking a new last member. */
  lemma Appended(order: seq<int>, links: map<int, Link>, first: int, last: int, v: int,
                 links': map<int, Link>, first': int)
    requires Unrepeated(order) && v != 0 && v !in order && Linked(order, links, first, last)
    requires first' == if last != 0 then first else v
    requires v in links' && links'[v] == Link(last, 0)
    requires forall w :: w in links && w != v ==>
               w in links' && links'[w] == if w == last && last != 0 then Link(links[w].prev, v) else links[w]
    ensures Linked(order + [v], links', first', v) && Unrepeated(order + [v])
  {
    var r := order + [v];
    forall k | 0 <= k < |r| ensures r[k] in links' && links'[r[k]] == Link(Before(r, k), After(r, k)) {
      if k < |order| {
        assert links[order[k]] == Link(Before(order, k), After(order, k));
        assert order[k] == last <==> k == |order| - 1;
      }
    }
  }

  /** Linking a new first member. */
  lemma Prepended(order: seq<int>, links: map<int, Link>, first: int, last: int, v: int,
                  links': map<int, Link>, last': int)
    requires Unrepeated(order) && v != 0 && v !in order && Linked(order, links, first, last)
    requires last' == if first != 0 then last else v
    requires v in links' && links'[v] == Link(0, first)
    requires forall w :: w in links && w != v ==>
               w in links' && links'[w] == if w == first && first != 0 then Link(v, links[w].next) else links[w]
    ensures Linked([v] + order, links', v, last') && Unrepeated([v] + order)
  {
    var r := [v] + order;
    forall k | 0 <= k < |r| ensures r[k] in links' && links'[r[k]] == Link(Before(r, k), After(r, k)) {
      if k > 0 {
        assert r[k] == order[k - 1] && order[k - 1] in order;
        assert links[order[k - 1]] == Link(Before(order, k - 1), After(order, k - 1));
        assert order[k - 1] == first <==> k == 1;
      }
    }
  }

  lemma FirstMember(order: seq<int>, links: map<int, Link>, first: int, last: int)
    requires Unrepeated(order) && Linked(order, links, first, last)
    ensures order == [] ==> first == 0 && last == 0
    ensures order != [] ==> first == order[0] != 0 && first in links
  {
  }

  /** A new first member gets a smaller stamp than all others. */
  lemma StampedPrepend(order: seq<int>, btab: map<int, int>, stamp: int, v: int, b: int)
    requires Stamped(order, btab, stamp) && v !in order && b <= stamp
    requires order != [] ==> order[0] in btab && b < btab[order[0]]
    ensures Stamped([v] + order, btab[v := b], stamp)
  {
    var r, t := [v] + order, btab[v := b];
    assert forall i :: 0 <= i < |order| ==> order[i] in order;
    forall i, j | 0 <= i < j < |r| ensures t[r[i]] < t[r[j]] {
      assert r[j] == order[j - 1];
      assert i > 0 ==> r[i] == order[i - 1];
      assert btab[order[0]] <= btab[order[j - 1]];
    }
  }

  lemma SearchedDownPrepend(order: seq<int>, btab: map<int, int>, stamp: int, bumped: int, values: set<int>, v: int,
                            b: int)
    requires SearchedDown(order, btab, bumped, values) && v !in order
    ensures SearchedDown([v] + order, btab[v := b], bumped, values) <==> v in values || b <= bumped
  {
    var r, t := [v] + order, btab[v := b];
    assert forall w :: w in r <==> w == v || w in order;
    assert v in r && t[v] == b;
  }

  lemma OnlyMember(btab: map<int, int>, values: set<int>, v: int, b: int)
    requires v in btab && btab[v] == b
    ensures SearchedDown([v], btab, b, values)
  {
  }

  lemma MemberIsNonZero(order: seq<int>, v: int)
    requires Unrepeated(order) && v in order
    ensures v != 0
  {
  }

  lemma FirstIsLeast(order: seq<int>, btab: map<int, int>, stamp: int, v: int)
    requires Stamped(order, btab, stamp) && v in order
    ensures order[0] in btab && v in btab && btab[order[0]] <= btab[v] <= stamp
  {
    var i :| 0 <= i < |order| && order[i] == v;
  }

  /** What is known about a member and its neighbours. */
  lemma Neighbours(order: seq<int>, links: map<int, Link>, first: int, last: int, i: nat)
    requires Unrepeated(order) && Linked(order, links, first, last) && i < |order|
    ensures order[i] in links && order[i] != 0
    ensures var l := links[order[i]];
            && (l.prev != 0 ==> l.prev in links) && (l.next != 0 ==> l.next in links)
            && l.prev != order[i] && l.next != order[i] && (l.prev != 0 ==> l.prev != l.next)
  {
    if i > 0 {
      assert order[i - 1] in links;
    }
    if i + 1 < |order| {
      assert order[i + 1] in links;
    }
  }

  lemma LastMember(order: seq<int>, links: map<int, Link>, first: int, last: int)
    requires Linked(order, links, first, last)
    ensures order == [] ==> last == 0
    ensures order != [] ==> last == order[|order| - 1] && last in links
  {
  }

  lemma LastIsNonZero(order: seq<int>)
    requires Unrepeated(order)
    ensures order != [] ==> order[|order| - 1] != 0
  {
    assert order != [] ==> order[|order| - 1] in order;
  }

  /** A new stamp for a new last member. */
  lemma StampedAppend(order: seq<int>, btab: map<int, int>, stamp: int, v: int)
    requires Stamped(order, btab, stamp) && v !in order
    ensures Stamped(order + [v], btab[v := stamp + 1], stamp + 1)
  {
    assert forall i :: 0 <= i < |order| ==> order[i] in order;
  }

  lemma SearchedDownAppend(order: seq<int>, btab: map<int, int>, stamp: int, bumped: int, values: set<int>, v: int)
    requires Stamped(order, btab, stamp) && v !in order
    ensures SearchedDown(order + [v], btab[v := stamp + 1], stamp + 1, values)
  {
    forall w | w in order ensures w in btab && btab[w] <= stamp {
      var i :| 0 <= i < |order| && order[i] == w;
    }
  }

  // ---------------------------------------------------------------- moving members

  lemma {:induction false} OthersMembers(order: seq<int>, moved: set<int>)
    ensures forall v :: v in Others(order, moved) <==> v in order && v !in moved
    ensures forall v :: v in Among(order, moved) <==> v in order && v in moved
  {
    if order != [] {
      var n := |order| - 1;
      OthersMembers(order[..n], moved);
      assert order == order[..n] + [order[n]];
    }
  }

  lemma OthersAppend(order: seq<int>, v: int, moved: set<int>)
    ensures Others(order + [v], moved) == if v in moved then Others(order, moved) else Others(order, moved) + [v]
    ensures Among(order + [v], moved) == if v in moved then Among(order, moved) + [v] else Among(order, moved)
  {
    assert (order + [v])[..|order|] == order;
  }

  lemma OthersEmpty(moved: set<int>)
    ensures Others([], moved) == [] && Among([], moved) == []
  {
  }

  lemma {:induction false} OthersNothing(order: seq<int>, moved: set<int>)
    requires forall v :: v in order ==> v !in moved
    ensures Others(order, moved) == order && Among(order, moved) == []
  {
    hide Others, Among;
    OthersEmpty(moved);
    if order != [] {
      var n := |order| - 1;
      assert order == order[..n] + [order[n]] && order[n] in order;
      OthersNothing(order[..n], moved);
      OthersAppend(order[..n], order[n], moved);
    }
  }

  lemma {:induction false} OthersSplit(a: seq<int>, b: seq<int>, moved: set<int>)
    ensures Others(a + b, moved) == Others(a, moved) + Others(b, moved)
    ensures Among(a + b, moved) == Among(a, moved) + Among(b, moved)
    decreases |b|
  {
    hide Others, Among;
    OthersEmpty(moved);
    if b == [] {
      assert a + b == a;
    } else {
      var n := |b| - 1;
      OthersSplit(a, b[..n], moved);
      OthersAppend(a + b[..n], b[n], moved);
      OthersAppend(b[..n], b[n], moved);
      assert a + b == a + b[..n] + [b[n]] && b == b[..n] + [b[n]];
    }
  }

  /** Removing one member by its position or by its name. */
  lemma OthersOne(order: seq<int>, i: nat)
    requires i < |order| && Unrepeated(order)
    ensures Others(order, {order[i]}) == Remove(order, i)
  {
    hide Others, Among;
    var v := order[i];
    var a, b := order[..i], order[i + 1..];
    assert order == a + [v] + b;
    assert v !in a && v !in b;
    OthersNothing(a, {v});
    OthersNothing(b, {v});
    OthersAppend(a, v, {v});
    OthersSplit(a + [v], b, {v});
  }

  lemma StampedRemove(order: seq<int>, btab: map<int, int>, stamp: int, i: nat)
    requires Stamped(order, btab, stamp) && i < |order|
    ensures Stamped(Remove(order, i), btab, stamp)
  {
    var r := Remove(order, i);
    forall k | 0 <= k < |r| ensures r[k] == order[if k < i then k else k + 1] { }
  }

  /** The moved variable has the largest stamp; if it is unassigned the search starts there. */
  lemma SearchedDownBumped(order: seq<int>, btab: map<int, int>, stamp: int, bumped: int, values: set<int>, i: nat)
    requires SearchedDown(order, btab, bumped, values) && Stamped(order, btab, stamp) && Unrepeated(order)
    requires i < |order|
    ensures var v, order', btab' := order[i], Remove(order, i) + [order[i]], btab[order[i] := stamp + 1];
            && (v in values ==> SearchedDown(order', btab', bumped, values))
            && SearchedDown(order', btab', stamp + 1, values)
  {
    var v := order[i];
    RemoveMembers(order, i);
    forall w | w in order ensures w in btab && btab[w] <= stamp {
      var k :| 0 <= k < |order| && order[k] == w;
    }
  }

  /** A member of the list is at some position and has a stamp. */
  lemma MemberAt(order: seq<int>, links: map<int, Link>, first: int, last: int, btab: map<int, int>, stamp: int, v: int)
    requires Linked(order, links, first, last) && Stamped(order, btab, stamp) && Unrepeated(order) && v in order
    ensures exists i :: 0 <= i < |order| && order[i] == v
    ensures v in links && v in btab && btab[v] <= stamp && v != 0
    ensures links[v].next == 0 <==> v == order[|order| - 1]
  {
    var i :| 0 <= i < |order| && order[i] == v;
    if i + 1 < |order| {
      assert order[i + 1] in order;
    }
  }

  /** Whatever follows in the list is assigned. */
  lemma AssignedBehind(order: seq<int>, btab: map<int, int>, stamp: int, bumped: int, values: set<int>, k: nat)
    requires Stamped(order, btab, stamp) && SearchedDown(order, btab, bumped, values) && k < |order|
    requires bumped <= btab[order[k]]
    ensures forall j :: k < j < |order| ==> order[j] in values
  {
    forall j | k < j < |order| ensures order[j] in values {
      var v := order[j];
      assert btab[order[k]] < btab[v] && v in order && v in btab;
    }
  }

  lemma PreviousMember(order: seq<int>, links: map<int, Link>, first: int, last: int, k: nat, values: set<int>)
    requires Linked(order, links, first, last) && k < |order| && exists v :: v in order && v !in values
    requires order[k] in values && forall j :: k < j < |order| ==> order[j] in values
    ensures k > 0 && order[k] in links && links[order[k]].prev == order[k - 1]
  {
    var v :| v in order && v !in values;
    var j :| 0 <= j < |order| && order[j] == v;
    assert j < k;
  }

  lemma LargestStamp(order: seq<int>, btab: map<int, int>, stamp: int, values: set<int>, k: nat)
    requires Stamped(order, btab, stamp) && k < |order| && forall j :: k < j < |order| ==> order[j] in values
    ensures order[k] in btab && forall v :: v in order && v !in values ==> v in btab && btab[v] <= btab[order[k]]
    ensures SearchedDown(order, btab, btab[order[k]], values)
  {
    forall v | v in order && v !in values ensures v in btab && btab[v] <= btab[order[k]] {
      var j :| 0 <= j < |order| && order[j] == v;
    }
  }

  lemma LastRemoved(order: seq<int>, n: nat)
    requires order != [] && n == |order| - 1
    ensures Remove(order, n) + [order[n]] == order
  {
    assert order[n + 1..] == [];
    assert order[..n] + [] == order[..n];
  }

  lemma LastStays(order: seq<int>)
    requires Unrepeated(order) && order != []
    ensures Others(order, {order[|order| - 1]}) + [order[|order| - 1]] == order
  {
    hide *;
    OthersOne(order, |order| - 1);
    LastRemoved(order, |order| - 1);
  }

  class Queue {
    var links: map<int, Link>
    var first: int
    var last: int
    var unassigned: int
    var bumped: int
    var btab: map<int, int>
    var stamp: int
    ghost var order: seq<int>

    ghost predicate Valid()
      reads this
    {
      && Unrepeated(order) && Linked(order, links, first, last) && Stamped(order, btab, stamp)
      && stamp >= 0 && (order == [] ==> unassigned == 0)
      && (order != [] ==> unassigned in order && bumped <= btab[unassigned])
    }

    /** Everything behind the noted stamp is assigned. */
    ghost predicate Points(values: set<int>)
      reads this
    {
      SearchedDown(order, btab, bumped, values)
    }

    lemma ValidMeans()
      requires Valid()
      ensures Unrepeated(order) && Stamped(order, btab, stamp)
    {
    }

    constructor ()
      ensures Valid() && order == [] && stamp == 0 && Points({})
    {
      links, first, last, unassigned, bumped, btab, stamp, order := map[], 0, 0, 0, 0, map[], 0, [];
    }

    method UpdateUnassigned(idx: int)
      requires Valid() && idx in order
      modifies this`unassigned, this`bumped
      ensures Valid() && unassigned == idx && idx in btab && bumped == btab[idx]
    {
      hide Linked, Stamped, Unrepeated;
      MemberAt(order, links, first, last, btab, stamp, idx);
      unassigned := idx;
      bumped := btab[idx];
    }

    method Dequeue(idx: int, ghost i: nat)
      requires Unrepeated(order) && Linked(order, links, first, last) && i < |order| && order[i] == idx
      modifies this`links, this`first, this`last, this`order
      ensures order == Remove(old(order), i) && Unrepeated(order) && Linked(order, links, first, last)
      ensures links.Keys == old(links.Keys)
    {
      hide Unrepeated, Linked, Remove;
      ghost var links0, first0, last0 := links, first, last;
      Neighbours(order, links, first, last, i);
      var l := links[idx];
      if l.prev != 0 {
        links := links[l.prev := links[l.prev].(next := l.next)];
      } else {
        first := l.next;
      }
      if l.next != 0 {
        links := links[l.next := links[l.next].(prev := l.prev)];
      } else {
        last := l.prev;
      }
      Unlinked(order, links0, first0, last0, i, links, first, last);
      RemoveMembers(order, i);
      order := Remove(order, i);
    }

    method Enqueue(idx: int)
      requires Unrepeated(order) && Linked(order, links, first, last) && idx != 0 && idx !in order
      modifies this`links, this`first, this`last, this`order
      ensures order == old(order) + [idx] && Unrepeated(order) && Linked(order, links, first, last)
    {
      hide Unrepeated, Linked;
      ghost var links0, first0, last0 := links, first, last;
      LastMember(order, links, first, last);
      LastIsNonZero(order);
      var prev := last;
      if prev != 0 {
        links := links[prev := links[prev].(next := idx)];
      } else {
        first := idx;
      }
      last := idx;
      links := links[idx := Link(prev, 0)];
      Appended(order, links0, first0, last0, idx, links, first);
      order := order + [idx];
    }

    method Bury(idx: int)
      requires Unrepeated(order) && Linked(order, links, first, last) && idx != 0 && idx !in order
      modifies this`links, this`first, this`last, this`order
      ensures order == [idx] + old(order) && Unrepeated(order) && Linked(order, links, first, last)
    {
      hide Unrepeated, Linked;
      ghost var links0, first0, last0 := links, first, last;
      FirstMember(order, links, first, last);
      var next := first;
      if next != 0 {
        links := links[next := links[next].(prev := idx)];
      } else {
        last := idx;
      }
      first := idx;
      links := links[idx := Link(0, next)];
      Prepended(order, links0, first0, last0, idx, links, last);
      order := [idx] + order;
    }

    /** A new variable with the next larger index becomes the last one with the largest stamp, or
        in reverse order the first one with the smallest.  In that case the search start stays valid exactly
        if the noted stamp does not lag behind the new one. */
    method InitEnqueue(idx: int, reverse: bool, ghost values: set<int>)
      requires Valid() && idx != 0 && idx !in order && Points(values)
      modifies this
      ensures Valid() && idx in btab
      ensures !reverse ==> order == old(order) + [idx] && unassigned == idx && bumped == stamp && Points({})
      ensures reverse ==> order == [idx] + old(order) && stamp == old(stamp)
      ensures reverse ==> unassigned == if old(order) == [] then idx else old(unassigned)
      ensures reverse ==> (Points(values) <==> idx in values || btab[idx] <= bumped)
    {
      hide *;
      if reverse {
        InitFirst(idx, values);
      } else {
        InitLast(idx);
      }
    }

    method InitFirst(idx: int, ghost values: set<int>)
      requires Valid() && idx != 0 && idx !in order && Points(values)
      modifies this
      ensures Valid() && order == [idx] + old(order) && stamp == old(stamp) && idx in btab
      ensures unassigned == if old(order) == [] then idx else old(unassigned)
      ensures Points(values) <==> idx in values || btab[idx] <= bumped
    {
      hide Unrepeated, Linked, Stamped, SearchedDown;
      ghost var order0 := order;
      FirstMember(order, links, first, last);
      if order != [] {
        FirstIsLeast(order, btab, stamp, unassigned);
        MemberIsNonZero(order, unassigned);
      }
      var b := if first != 0 then btab[first] - 1 else 0;
      StampedPrepend(order0, btab, stamp, idx, b);
      SearchedDownPrepend(order0, btab, stamp, bumped, values, idx, b);
      Bury(idx);
      LastMember(order, links, first, last);
      btab := btab[idx := b];
      assert order[0] == idx;
      if unassigned == 0 {
        assert order == [idx];
        OnlyMember(btab, values, idx, b);
        unassigned := last;
        bumped := btab[last];
      }
    }

    method InitLast(idx: int)
      requires Valid() && idx != 0 && idx !in order
      modifies this
      ensures Valid() && order == old(order) + [idx] && unassigned == idx && bumped == stamp && idx in btab
      ensures Points({})
    {
      hide Unrepeated, Linked, Stamped, SearchedDown;
      ghost var order0 := order;
      Enqueue(idx);
      LastMember(order, links, first, last);
      StampedAppend(order0, btab, stamp, idx);
      SearchedDownAppend(order0, btab, stamp, bumped, {}, idx);
      stamp := stamp + 1;
      btab := btab[idx := stamp];
      unassigned := last;
      bumped := btab[last];
    }

    /** Moves a variable to the end of the list, unless it is there already. */
    method BumpQueue(idx: int, values: set<int>)
      requires Valid() && idx in order && Points(values)
      modifies this
      ensures Valid() && Points(values) && order == Others(old(order), {idx}) + [idx]
      ensures idx in btab && forall v :: v in old(btab) && v != idx ==> v in btab && btab[v] == old(btab)[v]
      ensures old(order)[|old(order)| - 1] == idx ==> stamp == old(stamp) && btab == old(btab)
      ensures old(order)[|old(order)| - 1] != idx ==> stamp == old(stamp) + 1 == btab[idx]
    {
      hide Unrepeated, Linked, Stamped, SearchedDown, Others, Remove;
      MemberAt(order, links, first, last, btab, stamp, idx);
      if links[idx].next == 0 {
        LastStays(order);
        return;
      }
      ghost var i :| 0 <= i < |order| && order[i] == idx;
      ghost var order0 := order;
      OthersOne(order, i);
      RemoveMembers(order, i);
      StampedRemove(order, btab, stamp, i);
      SearchedDownBumped(order, btab, stamp, bumped, values, i);
      StampedAppend(Remove(order, i), btab, stamp, idx);
      MemberAt(order, links, first, last, btab, stamp, unassigned);
      Dequeue(idx, i);
      Enqueue(idx);
      assert unassigned in order by {
        assert unassigned in order0;
      }
      stamp := stamp + 1;
      btab := btab[idx := stamp];
      if idx !in values {
        UpdateUnassigned(idx);
      }
    }

    /** The unassigned variable with the largest stamp. */
    method NextDecision(values: set<int>) returns (res: int)
      requires Valid() && Points(values) && exists v :: v in order && v !in values
      modifies this`unassigned, this`bumped
      ensures Valid() && Points(values) && res in order && res !in values && unassigned == res
      ensures forall v :: v in order && v !in values ==> btab[v] <= btab[res]
    {
      hide Linked, Stamped, Unrepeated, SearchedDown, Before, After;
      MemberAt(order, links, first, last, btab, stamp, unassigned);
      res := unassigned;
      ghost var k :| 0 <= k < |order| && order[k] == unassigned;
      AssignedBehind(order, btab, stamp, bumped, values, k);
      var searched := 0;
      while res in values
        invariant 0 <= k < |order| && order[k] == res && Valid() && Points(values)
        invariant forall j :: k < j < |order| ==> order[j] in values
        invariant searched == 0 ==> res == unassigned
        decreases k
      {
        PreviousMember(order, links, first, last, k, values);
        res, searched := links[res].prev, searched + 1;
        k := k - 1;
      }
      LargestStamp(order, btab, stamp, values, k);
      assert order[k] in order;
      if searched != 0 {
        UpdateUnassigned(res);
      }
    }

    /** A variable becomes unassigned: the search has to start there if it would miss it. */
    method NoticeUnassigned(idx: int, ghost values: set<int>)
      requires Valid() && idx in order && Points(values)
      modifies this`unassigned, this`bumped
      ensures Valid() && Points(values - {idx})
    {
      hide Linked, Stamped, Unrepeated;
      MemberAt(order, links, first, last, btab, stamp, idx);
      if bumped < btab[idx] {
        UpdateUnassigned(idx);
      }
    }

    /** Bumps several variables, which have been sorted by their stamps. */
    method BumpVariables(analyzed: seq<int>, values: set<int>)
      requires Valid() && Points(values) && Increasing(analyzed, btab) && forall v :: v in analyzed ==> v in order
      modifies this
      ensures Valid() && Points(values) && order == Others(old(order), Lits(analyzed)) + analyzed
    {
      hide Others, Among, Linked, Stamped, SearchedDown;
      ghost var order0 := order;
      SortedIsAmong(order, analyzed, btab, stamp);
      BumpStart(order0, analyzed);
      for i := 0 to |analyzed|
        invariant Valid() && Points(values) && order == Others(order0, Lits(analyzed[..i])) + analyzed[..i]
      {
        BumpStep(order0, analyzed, i);
        BumpQueue(analyzed[i], values);
        assert analyzed[..i + 1] == analyzed[..i] + [analyzed[i]];
      }
      assert analyzed[..|analyzed|] == analyzed;
    }
  }

  ghost predicate Increasing(s: seq<int>, btab: map<int, int>) {
    && (forall i :: 0 <= i < |s| ==> s[i] in btab)
    && forall i, j :: 0 <= i < j < |s| ==> btab[s[i]] < btab[s[j]]
  }

  lemma IncreasingLast(a: seq<int>, b: seq<int>, btab: map<int, int>)
    requires Increasing(a, btab) && Increasing(b, btab) && a != [] && forall v :: v in a ==> v in b
    ensures b != [] && btab[a[|a| - 1]] <= btab[b[|b| - 1]]
  {
    var v := a[|a| - 1];
    assert v in a;
    var i :| 0 <= i < |b| && b[i] == v;
  }

  lemma IncreasingFront(a: seq<int>, btab: map<int, int>)
    requires Increasing(a, btab) && a != []
    ensures Increasing(a[..|a| - 1], btab) && forall v :: v in a[..|a| - 1] <==> v in a && v != a[|a| - 1]
    ensures forall v :: v in a ==> v in btab
  {
    var a', x := a[..|a| - 1], a[|a| - 1];
    forall v ensures v in a' <==> v in a && v != x {
      assert a == a' + [x];
      if v in a' {
        var i :| 0 <= i < |a'| && a'[i] == v;
        assert btab[a[i]] < btab[a[|a| - 1]];
      }
    }
  }

  /** Lists with the same members and increasing stamps are equal. */
  lemma {:induction false} IncreasingUnique(a: seq<int>, b: seq<int>, btab: map<int, int>)
    requires Increasing(a, btab) && Increasing(b, btab) && (forall v :: v in a <==> v in b)
    requires forall v, w :: v in a && w in b && btab[v] == btab[w] ==> v == w
    ensures a == b
    decreases |a|
  {
    hide Increasing;
    if a == [] {
      if b != [] {
        IncreasingLast(b, a, btab);
      }
    } else {
      IncreasingLast(a, b, btab);
      IncreasingLast(b, a, btab);
      var x, y := a[|a| - 1], b[|b| - 1];
      IncreasingFront(a, btab);
      IncreasingFront(b, btab);
      assert x in a && y in b;
      assert x == y;
      var a', b' := a[..|a| - 1], b[..|b| - 1];
      forall v ensures v in a' <==> v in b' {
        assert v in a' <==> v in a && v != x;
        assert v in b' <==> v in b && v != y;
      }
      IncreasingUnique(a', b', btab);
      assert a == a[..|a| - 1] + [x] && b == b[..|b| - 1] + [x];
    }
  }

  lemma {:induction false} AmongIncreasing(order: seq<int>, moved: set<int>, btab: map<int, int>, stamp: int)
    requires Stamped(order, btab, stamp)
    ensures Increasing(Among(order, moved), btab)
  {
    if order != [] {
      var n := |order| - 1;
      AmongIncreasing(order[..n], moved, btab, stamp);
      OthersMembers(order[..n], moved);
      var a := Among(order[..n], moved);
      forall i | 0 <= i < |a| ensures btab[a[i]] < btab[order[n]] {
        assert a[i] in a;
        var k :| 0 <= k < n && order[k] == a[i];
      }
    }
  }

  lemma SameStampSame(order: seq<int>, btab: map<int, int>, stamp: int)
    requires Stamped(order, btab, stamp)
    ensures forall v, w :: v in order && w in order && v in btab && w in btab && btab[v] == btab[w] ==> v == w
  {
    forall v, w | v in order && w in order && v in btab && w in btab && btab[v] == btab[w] ensures v == w {
      var i :| 0 <= i < |order| && order[i] == v;
      var j :| 0 <= j < |order| && order[j] == w;
    }
  }

  /** The first variable comes somewhere before the second one. */
  ghost predicate Precedes(order: seq<int>, v: int, w: int) {
    exists i, j :: 0 <= i < j < |order| && order[i] == v && order[j] == w
  }

  lemma PrecedesAppend(order: seq<int>, more: seq<int>, v: int, w: int)
    ensures Precedes(order + more, v, w) <==>
            Precedes(order, v, w) || Precedes(more, v, w) || (v in order && w in more)
  {
    var all, n := order + more, |order|;
    if v in order && w in more {
      var i, j :| 0 <= i < n && order[i] == v && 0 <= j < |more| && more[j] == w;
      assert all[i] == v && all[n + j] == w;
    }
    if Precedes(order, v, w) {
      var i, j :| 0 <= i < j < n && order[i] == v && order[j] == w;
      assert all[i] == v && all[j] == w;
    }
    if Precedes(more, v, w) {
      var i, j :| 0 <= i < j < |more| && more[i] == v && more[j] == w;
      assert all[n + i] == v && all[n + j] == w;
    }
    if Precedes(all, v, w) {
      var i, j :| 0 <= i < j < |all| && all[i] == v && all[j] == w;
      if i >= n {
        assert more[i - n] == v && more[j - n] == w;
      } else if j < n {
        assert order[i] == v && order[j] == w;
      } else {
        assert order[i] == v && more[j - n] == w;
      }
    }
  }

  lemma {:induction false} PartsPrecede(order: seq<int>, moved: set<int>, v: int, w: int)
    ensures Precedes(Others(order, moved), v, w) <==> Precedes(order, v, w) && v !in moved && w !in moved
    ensures Precedes(Among(order, moved), v, w) <==> Precedes(order, v, w) && v in moved && w in moved
  {
    if order != [] {
      var n := |order| - 1;
      var o, last := order[..n], order[n];
      PartsPrecede(o, moved, v, w);
      OthersMembers(o, moved);
      assert order == o + [last];
      PrecedesAppend(o, [last], v, w);
      PrecedesAppend(Others(o, moved), if last in moved then [] else [last], v, w);
      PrecedesAppend(Among(o, moved), if last in moved then [last] else [], v, w);
    }
  }

  /** After some variables have moved behind the others, two variables of the same kind are in the order in
      which they were, and one that was not moved comes before one that was. */
  lemma MovedBehind(order: seq<int>, moved: set<int>, v: int, w: int)
    requires v in order && w in order
    ensures Precedes(Others(order, moved) + Among(order, moved), v, w) <==>
            if v in moved <==> w in moved then Precedes(order, v, w) else w in moved
  {
    hide Precedes, Others, Among;
    PrecedesAppend(Others(order, moved), Among(order, moved), v, w);
    PartsPrecede(order, moved, v, w);
    OthersMembers(order, moved);
  }

  lemma SortedIsAmong(order: seq<int>, analyzed: seq<int>, btab: map<int, int>, stamp: int)
    requires Stamped(order, btab, stamp) && Increasing(analyzed, btab) && forall v :: v in analyzed ==> v in order
    ensures analyzed == Among(order, Lits(analyzed))
  {
    hide Stamped, Increasing;
    AmongIncreasing(order, Lits(analyzed), btab, stamp);
    OthersMembers(order, Lits(analyzed));
    SameStampSame(order, btab, stamp);
    IncreasingHasStamps(analyzed, btab);
    IncreasingUnique(analyzed, Among(order, Lits(analyzed)), btab);
  }

  lemma IncreasingHasStamps(s: seq<int>, btab: map<int, int>)
    requires Increasing(s, btab)
    ensures forall v :: v in s ==> v in btab
  {
  }

  lemma BumpStart(order: seq<int>, analyzed: seq<int>)
    ensures Others(order, Lits(analyzed[..0])) + analyzed[..0] == order
  {
    OthersNothing(order, Lits(analyzed[..0]));
  }

  lemma {:induction false} AmongUnrepeated(order: seq<int>, moved: set<int>)
    requires Unrepeated(order)
    ensures Unrepeated(Among(order, moved))
  {
    hide Others, Among;
    OthersEmpty(moved);
    if order != [] {
      var n := |order| - 1;
      assert order == order[..n] + [order[n]];
      AmongUnrepeated(order[..n], moved);
      OthersMembers(order[..n], moved);
      OthersAppend(order[..n], order[n], moved);
      var a := Among(order[..n], moved);
      forall i | 0 <= i < |a| ensures a[i] != order[n] {
        assert a[i] in a;
      }
    }
  }

  lemma {:induction false} OthersTwice(order: seq<int>, a: set<int>, b: set<int>)
    ensures Others(Others(order, a), b) == Others(order, a + b)
  {
    hide Others, Among;
    OthersEmpty(a);
    OthersEmpty(b);
    OthersEmpty(a + b);
    if order != [] {
      var n := |order| - 1;
      assert order == order[..n] + [order[n]];
      OthersTwice(order[..n], a, b);
      OthersAppend(order[..n], order[n], a);
      OthersAppend(order[..n], order[n], a + b);
      OthersAppend(Others(order[..n], a), order[n], b);
    }
  }

  /** Bumping the next variable moves it behind those bumped before. */
  lemma BumpStep(order: seq<int>, analyzed: seq<int>, i: nat)
    requires Unrepeated(order) && i < |analyzed| && analyzed == Among(order, Lits(analyzed))
    ensures var now := Others(order, Lits(analyzed[..i])) + analyzed[..i];
            && analyzed[i] in now
            && Others(now, {analyzed[i]}) + [analyzed[i]]
               == Others(order, Lits(analyzed[..i + 1])) + (analyzed[..i] + [analyzed[i]])
  {
    hide Others, Among;
    var v, before := analyzed[i], analyzed[..i];
    AmongUnrepeated(order, Lits(analyzed));
    OthersMembers(order, Lits(analyzed));
    OthersMembers(order, Lits(before));
    assert v in analyzed && v in Lits(analyzed);
    OthersSplit(Others(order, Lits(before)), before, {v});
    OthersNothing(before, {v});
    OthersTwice(order, Lits(before), {v});
    assert analyzed[..i + 1] == before + [v];
    assert Lits(before + [v]) == Lits(before) + {v};
  }
}
