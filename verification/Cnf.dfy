/** Propositional logic shared by all modules.  A literal is a non-zero integer and its
    negation is the integer negation.  A clause is a sequence of literals, a formula is a
    set of sets of literals, and an assignment is the finite set of the variables that are
    true. */
module Cnf {

  type Clause = seq<int>
  type Formula = set<set<int>>
  type Assignment = set<int>

  function Abs(lit: int): nat {
    if lit < 0 then -lit else lit
  }

  function Lits(c: Clause): set<int> {
    set lit | lit in c
  }

  predicate True(m: Assignment, lit: int) {
    if lit > 0 then lit in m else -lit !in m
  }

  ghost predicate Holds(m: Assignment, s: set<int>) {
    exists lit :: lit in s && True(m, lit)
  }

  ghost predicate Satisfies(m: Assignment, c: Clause) {
    exists lit :: lit in c && True(m, lit)
  }

  ghost predicate Models(m: Assignment, f: Formula) {
    forall s :: s in f ==> Holds(m, s)
  }

  /** Every assignment that satisfies the formula satisfies the clause. */
  ghost predicate Implies(f: Formula, s: set<int>) {
    forall m :: Models(m, f) ==> Holds(m, s)
  }

  ghost predicate Satisfiable(f: Formula) {
    exists m :: Models(m, f)
  }

  /** A set of true literals. */
  ghost predicate Consistent(vals: set<int>) {
    forall x :: x in vals ==> x != 0 && -x !in vals
  }

  /** Sign of a literal in a set of literals. */
  function SignIn(marks: set<int>, lit: int): int {
    if lit in marks then 1 else if -lit in marks then -1 else 0
  }

  ghost function Negations(s: set<int>): set<int> {
    set x | x in s :: -x
  }

  lemma InNegations(vals: set<int>, x: int)
    ensures x in Negations(vals) <==> -x in vals
  {
    assert -(-x) == x;
  }

  ghost predicate NonZero(s: set<int>) {
    0 !in s
  }

  ghost predicate NonZeroFormula(f: Formula) {
    forall s :: s in f ==> NonZero(s)
  }

  lemma HoldsLits(m: Assignment, c: Clause)
    ensures Holds(m, Lits(c)) == Satisfies(m, c)
  {
    if Satisfies(m, c) {
      var lit :| lit in c && True(m, lit);
      assert lit in Lits(c);
    }
  }

  lemma ModelsUnion(m: Assignment, f: Formula, g: Formula)
    ensures Models(m, f + g) == (Models(m, f) && Models(m, g))
  {
    if Models(m, f + g) {
      forall s | s in f ensures Holds(m, s) { assert s in f + g; }
      forall s | s in g ensures Holds(m, s) { assert s in f + g; }
    }
  }

  /** The assignment with one literal made true. */
  function SetTrue(m: Assignment, lit: int): Assignment {
    if lit > 0 then m + {lit} else m - {-lit}
  }

  lemma TrueAfterSet(m: Assignment, lit: int, other: int)
    requires lit != 0 && other != 0
    ensures True(SetTrue(m, lit), other) ==
            (if other == lit then true else if other == -lit then false else True(m, other))
  {
  }

  /** The smallest 32-bit integer, which is no literal. */
  const INT_MIN := -0x8000_0000

  predicate IsLiteral(x: int, maxVar: int) {
    -maxVar <= x <= maxVar
  }

  /** Everything that can be a literal. */
  ghost function Universe(maxVar: int): set<int> {
    set x | -maxVar <= x <= maxVar && IsLiteral(x, maxVar)
  }

  lemma InUniverse(s: set<int>, maxVar: nat)
    requires forall x :: x in s ==> Abs(x) <= maxVar
    ensures s <= Universe(maxVar)
  {
    forall x | x in s ensures x in Universe(maxVar) {
      assert IsLiteral(x, maxVar);
    }
  }

  lemma {:induction false} UniverseSize(maxVar: int)
    requires maxVar >= 0
    ensures |Universe(maxVar)| == 2 * maxVar + 1
  {
    if maxVar == 0 {
      assert IsLiteral(0, 0);
      assert Universe(0) == {0};
    } else {
      var n: int := maxVar - 1;
      UniverseSize(n);
      forall x ensures x in Universe(maxVar) <==> x in Universe(n) + {maxVar, -maxVar} {
        assert IsLiteral(x, maxVar) <==> IsLiteral(x, n) || x == maxVar || x == -maxVar;
      }
      assert Universe(maxVar) == Universe(n) + {maxVar, -maxVar};
      assert maxVar !in Universe(n) && -maxVar !in Universe(n);
    }
  }
}
