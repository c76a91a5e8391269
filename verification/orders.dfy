/**
 Properties of the strict "ranks ahead of" predicates a heap is parameterised by.
 A strict weak order is what `<` and `>` on a totally ordered type provide.
 */
module Orders {

  ghost predicate Irreflexive<T(!new)>(before: (T, T) -> bool) {
    forall x :: !before(x, x)
  }

  ghost predicate Transitive<T(!new)>(before: (T, T) -> bool) {
    forall x, y, z :: before(x, y) && before(y, z) ==> before(x, z)
  }

  /** "Not ahead of" is transitive too: incomparable elements form equivalence classes. */
  ghost predicate NegativelyTransitive<T(!new)>(before: (T, T) -> bool) {
    forall x, y, z :: !before(x, y) && !before(y, z) ==> !before(x, z)
  }

  ghost predicate StrictWeakOrder<T(!new)>(before: (T, T) -> bool) {
    Irreflexive(before) && Transitive(before) && NegativelyTransitive(before)
  }
}
