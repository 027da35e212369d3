/** Small facts about multisets, stated for any element type so that the solver does not
    reason about the elements themselves. */
module Multisets {

  lemma ZeroUnion<T>(a: multiset<T>, b: multiset<T>, x: T)
    ensures (a + b)[x := 0] == a[x := 0] + b[x := 0]
  {
  }

  lemma ZeroSingle<T>(y: T, x: T)
    ensures multiset{y}[x := 0] == if x == y then multiset{} else multiset{y}
  {
  }

  lemma UnionSwap<T>(a: multiset<T>, b: multiset<T>, c: multiset<T>)
    ensures a + b + c == c + b + a
  {
    forall e ensures (a + b + c)[e] == (c + b + a)[e] { }
  }

  lemma UnionShift<T>(h: multiset<T>, b1: multiset<T>, x: multiset<T>, b: multiset<T>, y: multiset<T>)
    requires b1 + x == b + y
    ensures h + b1 + x == h + b + y
  {
    forall e ensures (h + b1 + x)[e] == (h + b + y)[e] {
      assert (b1 + x)[e] == (b + y)[e];
    }
  }

  /** `x` and `y` differ by `z` added. */
  lemma CancelAdd<T>(x: multiset<T>, y: multiset<T>, a: multiset<T>, z: multiset<T>)
    requires x + a == y + (a + z)
    ensures x == y + z
  {
    forall e ensures x[e] == (y + z)[e] {
      assert (x + a)[e] == (y + (a + z))[e];
    }
  }

  /** `x` and `y` differ by `z` taken away. */
  lemma CancelRemove<T>(x: multiset<T>, y: multiset<T>, a: multiset<T>, z: multiset<T>)
    requires x + (a + z) == y + a
    ensures z <= y && x == y - z
  {
    forall e ensures x[e] == (y - z)[e] && z[e] <= y[e] {
      assert (x + (a + z))[e] == (y + a)[e];
    }
  }

  lemma RemoveAdd<T>(y: multiset<T>, z: multiset<T>)
    requires z <= y
    ensures y - z + z == y
  {
    forall e ensures (y - z + z)[e] == y[e] { }
  }
}
