/** Three-way comparisons: total preorders, and how chained comparisons inherit being one. */
module Orders {

  ghost predicate IsPreorder<T(!new)>(cmp: (T, T) -> int)
  {
    && (forall a, b :: -1 <= cmp(a, b) <= 1)
    && (forall a, b :: cmp(a, b) == -cmp(b, a))
    && (forall a, b, c :: cmp(a, b) <= 0 && cmp(b, c) <= 0 ==> cmp(a, c) <= 0)
  }

  /** A comparison that falls through to `second` where `first` ties is a preorder when both are. */
  lemma ChainIsPreorder<T(!new)>(first: (T, T) -> int, second: (T, T) -> int, cmp: (T, T) -> int)
    requires IsPreorder(first) && IsPreorder(second)
    requires forall a, b :: cmp(a, b) == if first(a, b) != 0 then first(a, b) else second(a, b)
    ensures IsPreorder(cmp)
  {
    forall a, b ensures -1 <= cmp(a, b) <= 1 && cmp(a, b) == -cmp(b, a) {
      assert first(a, b) == -first(b, a) && second(a, b) == -second(b, a);
    }
    forall a, b, c | cmp(a, b) <= 0 && cmp(b, c) <= 0 ensures cmp(a, c) <= 0 {
      assert first(a, b) <= 0 && first(b, c) <= 0;
      assert first(a, c) <= 0;
      if first(a, c) == 0 {
        assert first(c, a) == 0;
        assert first(c, b) <= 0 && first(b, a) <= 0;
        assert second(a, b) <= 0 && second(b, c) <= 0;
      }
    }
  }

  /** Strictly below then weakly below is strictly below, and the mirror image. */
  lemma StrictlyBelow<T(!new)>(cmp: (T, T) -> int, a: T, b: T, c: T)
    requires IsPreorder(cmp) && cmp(a, b) <= 0 && cmp(b, c) <= 0
    ensures cmp(a, c) <= 0
    ensures cmp(a, b) < 0 || cmp(b, c) < 0 ==> cmp(a, c) < 0
  {
    assert cmp(a, c) <= 0;
    if cmp(a, c) == 0 {
      assert cmp(c, a) == 0;
      assert cmp(c, b) <= 0 && cmp(b, a) <= 0;
    }
  }

  lemma Flip<T(!new)>(cmp: (T, T) -> int, a: T, b: T)
    requires IsPreorder(cmp)
    ensures cmp(a, b) == -cmp(b, a) && cmp(a, a) == 0
  {
    assert cmp(a, a) == -cmp(a, a);
  }
}
