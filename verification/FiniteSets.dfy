/** Facts about finite sets that the counting arguments share. */
module FiniteSets {
  lemma SubsetSize<T>(a: set<T>, b: set<T>)
    requires a <= b
    ensures |a| <= |b|
  {
    assert b == a + (b - a) && a * (b - a) == {};
  }

  /** An injection from a into b, given by a sequence. */
  lemma {:induction false} InjectionSize(a: set<nat>, b: set<nat>, f: seq<nat>)
    requires forall x | x in a :: x < |f| && f[x] in b
    requires forall x, y | x in a && y in a && x != y :: f[x] != f[y]
    ensures |a| <= |b|
  {
    if a != {} {
      var x :| x in a;
      InjectionSize(a - {x}, b - {f[x]}, f);
    }
  }
}
