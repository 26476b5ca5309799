/** Facts about lists and sets shared by the modules. */
module Lists {
  import opened Cnf

  ghost predicate NoDuplicates(s: seq<int>) {
    forall i, j :: 0 <= i < j < |s| ==> s[i] != s[j]
  }

  function Members(s: seq<int>): set<int> {
    set x | x in s
  }

  lemma SameMultisetSameLits(a: Clause, b: Clause)
    requires multiset(a) == multiset(b)
    ensures |a| == |b| && Lits(a) == Lits(b) && (forall x :: x in a <==> x in b)
  {
    assert |multiset(a)| == |a| && |multiset(b)| == |b|;
    forall x ensures x in a <==> x in b {
      assert x in multiset(a) <==> x in multiset(b);
    }
  }

  lemma SubsetSize(a: set<int>, b: set<int>)
    requires a <= b
    ensures |a| <= |b| && (|a| == |b| ==> a == b)
  {
    assert b == a + (b - a);
    assert |b| == |a| + |b - a|;
  }

  lemma {:induction false} DistinctSize(s: seq<int>)
    requires NoDuplicates(s)
    ensures |Lits(s)| == |s|
  {
    if s != [] {
      var n := |s| - 1;
      DistinctSize(s[..n]);
      assert s == s[..n] + [s[n]];
      assert s[n] !in Lits(s[..n]) && Lits(s) == Lits(s[..n]) + {s[n]};
    }
  }

  /** A literal that occurs once is not among those before it. */
  lemma PrefixNew(c: Clause, i: nat)
    requires i < |c| && forall x :: multiset(c)[x] <= 1
    ensures c[i] !in c[..i] && c[i] in c && c[..i + 1] == c[..i] + [c[i]]
  {
    var x := c[i];
    assert multiset(c)[x] <= 1;
    var a, b := c[..i], [x] + c[i + 1..];
    assert c == a + b;
    assert multiset(a + b)[x] == multiset(a)[x] + multiset(b)[x];
    assert x in b && x in multiset(b);
    assert x in a ==> x in multiset(a);
  }
}
