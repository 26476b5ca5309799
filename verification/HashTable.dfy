/** The chained hash table of the proof checker. */
module HashTable {
  import opened Cnf
  import opened Lists
  import opened Propagation

  // ---------------------------------------------------------------- hash values

  const TWO64 := 0x1_0000_0000_0000_0000

  function Pow2(n: nat): (p: nat)
    ensures p > 0
  {
    if n == 0 then 1 else 2 * Pow2(n - 1)
  }

  function ShiftRight(x: nat, n: nat): nat {
    if n == 0 then x else ShiftRight(x / 2, n - 1)
  }

  function Xor(a: nat, b: nat): nat
    decreases a + b
  {
    if a == 0 then b else if b == 0 then a
    else (a % 2 + b % 2) % 2 + 2 * Xor(a / 2, b / 2)
  }

  function And(a: nat, b: nat): (r: nat)
    ensures r <= b
  {
    if a == 0 || b == 0 then 0 else a % 2 * (b % 2) + 2 * And(a / 2, b / 2)
  }

  predicate IsPowerOfTwo(n: nat) {
    n == 1 || (n > 1 && n % 2 == 0 && IsPowerOfTwo(n / 2))
  }

  /** Masking with a power of two minus one is the remainder. */
  lemma {:induction false} MaskIsRemainder(a: nat, size: nat)
    requires IsPowerOfTwo(size)
    ensures And(a, size - 1) == a % size
  {
    if size > 1 {
      var h := size / 2;
      assert (size - 1) % 2 == 1 && (size - 1) / 2 == h - 1;
      MaskIsRemainder(a / 2, h);
      HalvedRemainder(a, h);
    }
  }

  lemma HalvedRemainder(a: nat, h: nat)
    requires h > 0
    ensures a % 2 + 2 * (a / 2 % h) == a % (2 * h)
  {
    var q, r := a / 2 / h, a / 2 % h;
    assert a / 2 == h * q + r;
    assert a == 2 * h * q + (a % 2 + 2 * r);
    RemainderIs(a, 2 * h, q, a % 2 + 2 * r);
  }

  lemma RemainderIs(a: nat, n: nat, q: nat, r: nat)
    requires a == n * q + r && r < n
    ensures a % n == r
  {
    var d, e := a / n, a % n;
    assert a == d * n + e && e < n;
    NoMultipleBetween(n, d - q, r - e) by {
      assert n * (d - q) == n * d - n * q;
    }
    assert n * (d - q) == 0;
  }

  lemma NoMultipleBetween(n: int, k: int, x: int)
    requires n * k == x && -n < x < n
    ensures k == 0
  {
    assert k >= 1 ==> n * (k - 1) >= 0;
    assert k <= -1 ==> n * (-k - 1) >= 0;
  }

  /** Folds the high bits of a hash value into the low ones until they fit the size, and masks the rest. */
  function Reduce(hash: nat, size: nat, shift: nat): (r: nat)
    requires size > 0
    ensures r < size
    decreases shift
  {
    if shift > 0 && Pow2(shift) > size then Reduce(Xor(hash, ShiftRight(hash, shift)), size, shift / 2)
    else And(hash, size - 1)
  }

  method ReduceHash(hash: nat, size: nat) returns (res: nat)
    requires size > 0
    ensures res == Reduce(hash, size, 32) < size
  {
    var shift: nat := 32;
    res := hash;
    while Pow2(shift) > size
      invariant Reduce(res, size, shift) == Reduce(hash, size, 32)
      decreases shift
    {
      hide Xor, ShiftRight, And;
      res := Xor(res, ShiftRight(res, shift));
      shift := shift / 2;
    }
    res := And(res, size - 1);
  }

  /** The hash value of a clause depends on its identifier alone. */
  function HashOf(nonces: seq<nat>, id: nat): nat
    requires |nonces| == 4
  {
    nonces[id % 4] * id % TWO64
  }

  /** Multiplying by an odd number loses no factor of two. */
  lemma {:induction false} OddFactor(a: int, d: int, k: nat, q: int) returns (r: int)
    requires a % 2 == 1 && a * d == Pow2(k) * q
    ensures d == Pow2(k) * r
    decreases k
  {
    if k == 0 {
      r := d;
    } else {
      var p := Pow2(k - 1);
      var e := HalvedProduct(a, d, p, q);
      r := OddFactor(a, e, k - 1, q);
      Doubled(p, r);
    }
  }

  lemma HalvedProduct(a: int, d: int, p: int, q: int) returns (e: int)
    requires a % 2 == 1 && a * d == 2 * p * q
    ensures d == 2 * e && a * e == p * q
  {
    e := d / 2;
    Doubled(p, q);
    assert a * d == 2 * (a / 2 * d) + d;
    assert d == 2 * e;
    Doubled(e, a);
  }

  lemma Doubled(p: int, r: int)
    ensures 2 * p * r == 2 * (p * r) == r * (2 * p)
  {
  }

  lemma {:induction false} Pow2Sum(m: nat, n: nat)
    ensures Pow2(m + n) == Pow2(m) * Pow2(n)
  {
    if m > 0 {
      Pow2Sum(m - 1, n);
    }
  }

  lemma Squared(m: nat, n: nat, p: nat)
    requires Pow2(m) == p && n == m + m
    ensures Pow2(n) == p * p
  {
    Pow2Sum(m, m);
  }

  lemma TwoTo64(n: nat)
    requires n == 4
    ensures Pow2(16 * n) == TWO64
  {
    Squared(n, 2 * n, 16);
    Squared(2 * n, 4 * n, 0x100);
    Squared(4 * n, 8 * n, 0x1_0000);
    Squared(8 * n, 16 * n, 0x1_0000_0000);
  }

  /** With odd nonces two identifiers of the same residue class never have the same hash value. */
  lemma HashTellsIdentifiers(nonces: seq<nat>, i: nat, j: nat)
    requires |nonces| == 4 && (forall n :: n in nonces ==> n % 2 == 1)
    requires i < TWO64 && j < TWO64 && i % 4 == j % 4 && HashOf(nonces, i) == HashOf(nonces, j)
    ensures i == j
  {
    var a := nonces[i % 4];
    assert a in nonces;
    var p, q := a * i / TWO64, a * j / TWO64;
    assert a * (i - j) == TWO64 * (p - q);
    TwoTo64(4);
    var r := OddFactor(a, i - j, 64, p - q);
    NoMultipleBetween(TWO64, r, i - j);
  }

  // ---------------------------------------------------------------- buckets

  type Buckets = seq<seq<int>>

  /** The bucket a clause belongs to. */
  function BucketOf(mem: Memory, size: nat, r: int): (b: nat)
    requires size > 0 && r in mem
    ensures b < size
  {
    Reduce(mem[r].hash, size, 32)
  }

  ghost predicate GoodBucket(mem: Memory, size: nat, b: nat, chain: seq<int>, refs: set<int>) {
    && NoDuplicates(chain)
    && forall r :: r in chain ==> r in refs && r in mem && size > 0 && BucketOf(mem, size, r) == b
  }

  /** The table holds exactly the given clauses, each one once and in its bucket. */
  ghost predicate HoldsRefs(mem: Memory, buckets: Buckets, refs: set<int>) {
    && (forall b :: 0 <= b < |buckets| ==> GoodBucket(mem, |buckets|, b, buckets[b], refs))
    && (forall r :: r in refs ==> r in mem && |buckets| > 0 && r in buckets[BucketOf(mem, |buckets|, r)])
  }

  ghost function LiveRefs(mem: Memory): set<int> {
    set r | r in mem && mem[r].size != 0
  }

  lemma InsertHolds(mem: Memory, buckets: Buckets, refs: set<int>, r: int, b: nat)
    requires HoldsRefs(mem, buckets, refs) && r !in refs && r in mem
    requires |buckets| > 0 && b == BucketOf(mem, |buckets|, r)
    ensures HoldsRefs(mem, buckets[b := [r] + buckets[b]], refs + {r})
  {
    var after := buckets[b := [r] + buckets[b]];
    hide BucketOf;
    forall i | 0 <= i < |after| ensures GoodBucket(mem, |after|, i, after[i], refs + {r}) {
      assert GoodBucket(mem, |buckets|, i, buckets[i], refs);
      if i == b {
        assert r !in buckets[b];
      }
    }
    forall x | x in refs + {r} ensures x in after[BucketOf(mem, |after|, x)] {
      if x in refs {
        assert x in buckets[BucketOf(mem, |buckets|, x)];
      }
    }
  }

  lemma RemoveHolds(mem: Memory, buckets: Buckets, refs: set<int>, b: nat, k: nat)
    requires HoldsRefs(mem, buckets, refs) && b < |buckets| && k < |buckets[b]|
    ensures HoldsRefs(mem, buckets[b := buckets[b][..k] + buckets[b][k + 1..]], refs - {buckets[b][k]})
    ensures buckets[b][k] in refs
  {
    hide BucketOf;
    var chain := buckets[b];
    var r := chain[k];
    var rest := chain[..k] + chain[k + 1..];
    var after := buckets[b := rest];
    assert GoodBucket(mem, |buckets|, b, chain, refs) && r in chain;
    assert forall i :: 0 <= i < |rest| ==> rest[i] == if i < k then chain[i] else chain[i + 1];
    assert r !in rest;
    forall i | 0 <= i < |after| ensures GoodBucket(mem, |after|, i, after[i], refs - {r}) {
      assert GoodBucket(mem, |buckets|, i, buckets[i], refs);
      assert forall x :: x in buckets[i] ==> BucketOf(mem, |buckets|, x) == i;
    }
    forall x | x in refs - {r} ensures x in after[BucketOf(mem, |after|, x)] {
      assert x in buckets[BucketOf(mem, |buckets|, x)];
      if x in chain {
        var i :| 0 <= i < |chain| && chain[i] == x;
        assert rest[if i < k then i else i - 1] == x;
      }
    }
  }

  lemma HoldsSameHashes(mem: Memory, mem': Memory, buckets: Buckets, refs: set<int>)
    requires HoldsRefs(mem, buckets, refs)
    requires forall r :: r in refs ==> r in mem' && r in mem && mem'[r].hash == mem[r].hash
    ensures HoldsRefs(mem', buckets, refs)
  {
    forall r | r in refs && |buckets| > 0 ensures BucketOf(mem', |buckets|, r) == BucketOf(mem, |buckets|, r) { }
    forall b | 0 <= b < |buckets| ensures GoodBucket(mem', |buckets|, b, buckets[b], refs) {
      assert GoodBucket(mem, |buckets|, b, buckets[b], refs);
    }
  }

  // ---------------------------------------------------------------- growing

  /** Doubles the table (an empty one gets one bucket) and rehashes every clause. */
  method EnlargeClauses(mem: Memory, buckets: Buckets, ghost refs: set<int>) returns (after: Buckets)
    requires HoldsRefs(mem, buckets, refs) && (|buckets| > 0 ==> IsPowerOfTwo(|buckets|))
    ensures HoldsRefs(mem, after, refs) && IsPowerOfTwo(|after|)
    ensures |after| == if |buckets| > 0 then 2 * |buckets| else 1
  {
    hide BucketOf, HoldsRefs, Reduce;
    var newSize := if |buckets| > 0 then 2 * |buckets| else 1;
    after := seq(newSize, _ => []);
    ghost var done: set<int> := {};
    NothingHeld(mem, after);
    for i := 0 to |buckets|
      invariant |after| == newSize && HoldsRefs(mem, after, done)
      invariant done == Flat(buckets, i)
    {
      after := Rehash(mem, buckets, refs, i, after, done);
      done := done + Members(buckets[i]);
    }
    AllDone(mem, buckets, refs, done);
  }

  lemma NothingHeld(mem: Memory, buckets: Buckets)
    requires forall b :: 0 <= b < |buckets| ==> buckets[b] == []
    ensures HoldsRefs(mem, buckets, {})
  {
  }

  /** Moves one chain, element by element, to the front of the new chains. */
  method Rehash(mem: Memory, buckets: Buckets, ghost refs: set<int>, i: nat, after0: Buckets, ghost done: set<int>)
    returns (after: Buckets)
    requires HoldsRefs(mem, buckets, refs) && i < |buckets| && |after0| > 0 && HoldsRefs(mem, after0, done)
    requires done == Flat(buckets, i)
    ensures |after| == |after0| && HoldsRefs(mem, after, done + Members(buckets[i]))
  {
    hide BucketOf, HoldsRefs, Reduce, IsPowerOfTwo, Flat;
    after := after0;
    var k := 0;
    assert done + Members(buckets[i][..0]) == done;
    while k < |buckets[i]|
      invariant 0 <= k <= |buckets[i]| && |after| == |after0|
      invariant HoldsRefs(mem, after, done + Members(buckets[i][..k]))
    {
      var c := buckets[i][k];
      FreshInBucket(mem, buckets, refs, i, k, done);
      var h := ReduceHash(mem[c].hash, |after|);
      BucketIs(mem, |after|, c);
      InsertHolds(mem, after, done + Members(buckets[i][..k]), c, h);
      after := after[h := [c] + after[h]];
      assert buckets[i][..k + 1] == buckets[i][..k] + [c];
      assert done + Members(buckets[i][..k]) + {c} == done + Members(buckets[i][..k + 1]);
      k := k + 1;
    }
    assert buckets[i][..k] == buckets[i];
  }

  /** The members of the first `n` chains. */
  ghost function Flat(buckets: Buckets, n: nat): set<int>
    requires n <= |buckets|
  {
    if n == 0 then {} else Flat(buckets, n - 1) + Members(buckets[n - 1])
  }

  lemma {:induction false} InFlat(buckets: Buckets, n: nat, r: int)
    requires n <= |buckets|
    ensures r in Flat(buckets, n) <==> exists b :: 0 <= b < n && r in buckets[b]
  {
    if n > 0 {
      InFlat(buckets, n - 1, r);
    }
  }

  lemma BucketIs(mem: Memory, size: nat, c: int)
    requires size > 0 && c in mem
    ensures BucketOf(mem, size, c) == Reduce(mem[c].hash, size, 32)
  {
  }

  lemma FreshInBucket(mem: Memory, buckets: Buckets, refs: set<int>, i: nat, k: nat, done: set<int>)
    requires HoldsRefs(mem, buckets, refs) && i < |buckets| && k < |buckets[i]|
    requires done == Flat(buckets, i)
    ensures buckets[i][k] !in done + Members(buckets[i][..k]) && buckets[i][k] in mem
  {
    hide BucketOf;
    var c := buckets[i][k];
    assert GoodBucket(mem, |buckets|, i, buckets[i], refs) && c in buckets[i];
    forall x | x in done ensures x in mem && BucketOf(mem, |buckets|, x) < i {
      InFlat(buckets, i, x);
      var b :| 0 <= b < i && x in buckets[b];
      assert GoodBucket(mem, |buckets|, b, buckets[b], refs);
    }
  }

  lemma AllDone(mem: Memory, buckets: Buckets, refs: set<int>, done: set<int>)
    requires HoldsRefs(mem, buckets, refs)
    requires done == Flat(buckets, |buckets|)
    ensures done == refs
  {
    hide BucketOf;
    forall r | r in done ensures r in refs {
      InFlat(buckets, |buckets|, r);
      var b :| 0 <= b < |buckets| && r in buckets[b];
      assert GoodBucket(mem, |buckets|, b, buckets[b], refs);
    }
    forall r | r in refs ensures r in done {
      InFlat(buckets, |buckets|, r);
      assert r in buckets[BucketOf(mem, |buckets|, r)];
    }
  }

  // ---------------------------------------------------------------- searching

  /** The stored clause a deletion looks for. */
  ghost predicate Matches(mem: Memory, r: int, hash: nat, c: Clause) {
    r in mem && mem[r].hash == hash && mem[r].size == |c| && forall x :: x in mem[r].lits ==> x in c
  }

  /** Between clauses without repetition of the same size inclusion is equality. */
  lemma MatchesMeans(mem: Memory, r: int, hash: nat, c: Clause)
    requires GoodMemory(mem) && Live(mem, r) && Distinct(c)
    ensures Matches(mem, r, hash, c) <==> mem[r].hash == hash && Lits(mem[r].lits) == Lits(c)
  {
    assert GoodClause(mem[r]);
    DistinctSize(mem[r].lits);
    DistinctSize(c);
    if Matches(mem, r, hash, c) {
      assert Lits(mem[r].lits) <= Lits(c);
      SubsetSize(Lits(mem[r].lits), Lits(c));
    } else if Lits(mem[r].lits) == Lits(c) {
      assert forall x :: x in mem[r].lits ==> x in Lits(c);
    }
  }

  method AllMarked(lits: Clause, marks: set<int>) returns (found: bool)
    ensures found <==> forall x :: x in lits ==> x in marks
  {
    found := true;
    var i := 0;
    while found && i != |lits|
      invariant 0 <= i <= |lits|
      invariant found ==> forall j :: 0 <= j < i ==> lits[j] in marks
      invariant !found ==> exists x :: x in lits && x !in marks
      decreases |lits| - i, found
    {
      var x := lits[i];
      found := x in marks;
      assert x in lits;
      i := i + 1;
    }
  }

  /** Walks the chain of the bucket and stops at the first match. */
  method Find(mem: Memory, buckets: Buckets, hash: nat, c: Clause, ghost refs: set<int>) returns (b: nat, k: nat)
    requires HoldsRefs(mem, buckets, refs) && |buckets| > 0 && refs == LiveRefs(mem) && GoodMemory(mem)
    ensures b < |buckets| && k <= |buckets[b]|
    ensures k < |buckets[b]| ==> Matches(mem, buckets[b][k], hash, c)
    ensures k == |buckets[b]| ==> forall r :: r in refs ==> !Matches(mem, r, hash, c)
  {
    hide BucketOf;
    b := ReduceHash(hash, |buckets|);
    var marks := set x | x in c;
    k := 0;
    assert GoodBucket(mem, |buckets|, b, buckets[b], refs);
    while k < |buckets[b]|
      invariant 0 <= k <= |buckets[b]|
      invariant forall i :: 0 <= i < k ==> !Matches(mem, buckets[b][i], hash, c)
    {
      var r := buckets[b][k];
      assert r in buckets[b];
      if mem[r].hash == hash && mem[r].size == |c| {
        assert GoodClause(mem[r]);
        var found := AllMarked(mem[r].lits, marks);
        if found {
          return;
        }
      }
      k := k + 1;
    }
    forall r | r in refs ensures !Matches(mem, r, hash, c) {
      if mem[r].hash == hash {
        BucketIs(mem, |buckets|, r);
        assert r in buckets[b];
      }
    }
  }
}
