/** What the tree and the sort ask of the comparison functions they are given. */
module Comparison {
  type Compare<!T> = (T, T) -> int

  predicate Total<T>(cmp: Compare<T>, a: T, b: T) {
    cmp(a, b) > 0 ==> cmp(b, a) <= 0
  }

  predicate Antisymmetric<T>(cmp: Compare<T>, a: T, b: T) {
    cmp(a, b) < 0 <==> cmp(b, a) > 0
  }

  predicate Transitive<T>(cmp: Compare<T>, a: T, b: T, c: T) {
    cmp(a, b) <= 0 && cmp(b, c) <= 0 ==> cmp(a, c) <= 0
  }

  /** A total preorder: of two elements one may always come first, and the order carries over. */
  ghost predicate Preorder<T(!new)>(cmp: Compare<T>) {
    && (forall a, b {:trigger Total(cmp, a, b)} :: Total(cmp, a, b))
    && (forall a, b, c {:trigger Transitive(cmp, a, b, c)} :: Transitive(cmp, a, b, c))
  }

  /** A preorder whose sign also tells equal from unequal, whichever way round the arguments are. */
  ghost predicate Consistent<T(!new)>(cmp: Compare<T>) {
    && (forall a, b {:trigger Antisymmetric(cmp, a, b)} :: Antisymmetric(cmp, a, b))
    && (forall a, b, c {:trigger Transitive(cmp, a, b, c)} :: Transitive(cmp, a, b, c))
  }

  lemma LessThanAll<T(!new)>(cmp: Compare<T>, a: T, b: T, c: T)
    requires Consistent(cmp) && cmp(b, c) <= 0 && cmp(a, b) < 0
    ensures cmp(a, c) < 0
  {
    assert Antisymmetric(cmp, a, b) && Antisymmetric(cmp, a, c) && Antisymmetric(cmp, c, a);
    assert Transitive(cmp, b, c, a);
  }

  lemma MoreThanAll<T(!new)>(cmp: Compare<T>, a: T, b: T, c: T)
    requires Consistent(cmp) && cmp(c, b) <= 0 && cmp(a, b) > 0
    ensures cmp(a, c) > 0
  {
    assert Transitive(cmp, a, c, b);
  }
}
