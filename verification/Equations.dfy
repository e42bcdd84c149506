/**
 Values that are defined by one equation each, where the equation of a key
 reads the values of other keys and no key depends on itself.
 */
module Equations {
  /** `compute(k, a)` is the right-hand side of the equation of k under the assignment a. */
  datatype System<!K(!new), !V(!new)> = System(compute: (K, K -> V) -> V, inputs: K -> set<K>, rank: K -> nat)

  /** The right-hand side looks at the keys it reads and at no others. */
  ghost predicate Local<K(!new), V(!new)>(sys: System<K, V>) {
    forall k: K, a: K -> V, b: K -> V ::
      (forall r :: r in sys.inputs(k) ==> a(r) == b(r)) ==> sys.compute(k, a) == sys.compute(k, b)
  }

  /** There are no cycles: what a key reads has a lower rank. */
  ghost predicate Ranked<K(!new), V(!new)>(sys: System<K, V>) {
    forall k, r :: r in sys.inputs(k) ==> sys.rank(r) < sys.rank(k)
  }

  ghost predicate Solves<K(!new), V(!new)>(sys: System<K, V>, a: K -> V) {
    forall k :: a(k) == sys.compute(k, a)
  }

  /** The plain recursive definition; the default is never looked at. */
  ghost function ValueOf<K(!new), V(!new)>(sys: System<K, V>, default: V, k: K): V
    decreases sys.rank(k)
  {
    sys.compute(k, (r: K) => if sys.rank(r) < sys.rank(k) then ValueOf(sys, default, r) else default)
  }

  ghost function Solution<K(!new), V(!new)>(sys: System<K, V>, default: V): K -> V {
    (k: K) => ValueOf(sys, default, k)
  }

  /** The recursive definition solves all equations. */
  lemma SolutionSolves<K(!new), V(!new)>(sys: System<K, V>, default: V)
    requires Local(sys) && Ranked(sys)
    ensures Solves(sys, Solution(sys, default))
  {
    var a := Solution(sys, default);
    forall k ensures a(k) == sys.compute(k, a) {
      var below := (r: K) => if sys.rank(r) < sys.rank(k) then ValueOf(sys, default, r) else default;
      assert forall r :: r in sys.inputs(k) ==> a(r) == below(r);
    }
  }

  lemma {:induction false} SolutionsAgreeAt<K(!new), V(!new)>(sys: System<K, V>, a: K -> V, b: K -> V, k: K)
    requires Local(sys) && Ranked(sys) && Solves(sys, a) && Solves(sys, b)
    ensures a(k) == b(k)
    decreases sys.rank(k)
  {
    forall r | r in sys.inputs(k) ensures a(r) == b(r) {
      SolutionsAgreeAt(sys, a, b, r);
    }
    SameInputs(sys, a, b, k);
    hide Local, Ranked;
  }

  lemma SameInputs<K(!new), V(!new)>(sys: System<K, V>, a: K -> V, b: K -> V, k: K)
    requires Local(sys) && forall r :: r in sys.inputs(k) ==> a(r) == b(r)
    ensures sys.compute(k, a) == sys.compute(k, b)
  {
  }

  /** There is no other solution. */
  lemma SolutionIsUnique<K(!new), V(!new)>(sys: System<K, V>, a: K -> V, b: K -> V)
    requires Local(sys) && Ranked(sys) && Solves(sys, a) && Solves(sys, b)
    ensures forall k :: a(k) == b(k)
  {
    forall k ensures a(k) == b(k) {
      SolutionsAgreeAt(sys, a, b, k);
    }
  }
}
