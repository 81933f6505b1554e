/** Comparators: what the sorting and heap kernels need to know about `compare`. */
module Orders {

  /** Instantiates the quantifiers of `StrictWeakOrder`; always true. */
  ghost predicate Triple<T>(x: T, y: T, z: T) {
    true
  }

  /** Irreflexive, transitive, and with transitive incomparability (stated as: a smaller
      and a larger element cannot both be incomparable to a third). */
  ghost predicate StrictWeakOrder<T(!new)>(less: (T, T) -> bool) {
    forall x, y, z {:trigger Triple(x, y, z)} :: Triple(x, y, z) ==>
      && !less(x, x)
      && (less(x, y) && less(y, z) ==> less(x, z))
      && (less(x, y) ==> less(x, z) || less(z, y))
  }

  /** `x` may stand before `y` in a sorted range. */
  predicate Leq<T>(less: (T, T) -> bool, x: T, y: T) {
    !less(y, x)
  }

  predicate Equivalent<T>(less: (T, T) -> bool, x: T, y: T) {
    !less(x, y) && !less(y, x)
  }

  lemma LessIsLeq<T(!new)>(less: (T, T) -> bool, x: T, y: T)
    requires StrictWeakOrder(less) && less(x, y)
    ensures Leq(less, x, y)
  {
    assert Triple(x, y, x);
  }

  lemma LeqReflexive<T(!new)>(less: (T, T) -> bool, x: T)
    requires StrictWeakOrder(less)
    ensures Leq(less, x, x)
  {
    assert Triple(x, x, x);
  }

  lemma LeqTransitive<T(!new)>(less: (T, T) -> bool, x: T, y: T, z: T)
    requires StrictWeakOrder(less)
    requires Leq(less, x, y) && Leq(less, y, z)
    ensures Leq(less, x, z)
  {
    assert Triple(z, x, y);
  }

  /** Equivalent elements compare alike with everything else. */
  lemma EquivalentAlike<T(!new)>(less: (T, T) -> bool, p: T, q: T, x: T)
    requires StrictWeakOrder(less) && Equivalent(less, p, q)
    ensures less(x, p) == less(x, q) && less(p, x) == less(q, x)
  {
    assert Triple(x, p, q) && Triple(x, q, p) && Triple(p, x, q) && Triple(q, x, p);
  }
}
