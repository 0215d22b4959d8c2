/** Keys and the user-supplied comparison, as every tree macro takes it. */
module Order {

  /** Whatever the comparison looks at in an element. */
  type Key(!new)

  /** The `cmp` argument of the macros: only the sign of its result is used. */
  type Compare = (Key, Key) -> int

  /** What the macros need of `cmp`: a total preorder whose two directions agree. */
  ghost predicate TotalOrder(cmp: Compare) {
    && (forall a, b :: cmp(a, b) < 0 <==> cmp(b, a) > 0)
    && (forall a, b, c :: cmp(a, b) <= 0 && cmp(b, c) <= 0 ==> cmp(a, c) <= 0)
  }

  /** Strictly ascending: in particular no two keys are equal. */
  ghost predicate Sorted(cmp: Compare, ks: seq<Key>) {
    forall i, j :: 0 <= i < j < |ks| ==> cmp(ks[i], ks[j]) < 0
  }

  /** Every key of `ks` is less than `k`. */
  ghost predicate AllBelow(cmp: Compare, ks: seq<Key>, k: Key) {
    forall i :: 0 <= i < |ks| ==> cmp(k, ks[i]) > 0
  }

  /** Every key of `ks` is greater than `k`. */
  ghost predicate AllAbove(cmp: Compare, ks: seq<Key>, k: Key) {
    forall i :: 0 <= i < |ks| ==> cmp(k, ks[i]) < 0
  }

  lemma StrictTransitive(cmp: Compare, a: Key, b: Key, c: Key)
    requires TotalOrder(cmp)
    ensures cmp(a, b) < 0 && cmp(b, c) <= 0 ==> cmp(a, c) < 0
    ensures cmp(a, b) <= 0 && cmp(b, c) < 0 ==> cmp(a, c) < 0
  {
    assert cmp(c, a) <= 0 && cmp(a, b) <= 0 ==> cmp(c, b) <= 0;
    assert cmp(b, c) <= 0 && cmp(c, a) <= 0 ==> cmp(b, a) <= 0;
  }

  /** One comparison with the middle key of a sorted sequence decides a whole side. */
  lemma SortedSplit(cmp: Compare, a: seq<Key>, x: Key, b: seq<Key>, k: Key)
    requires TotalOrder(cmp)
    requires Sorted(cmp, a + [x] + b)
    ensures cmp(k, x) <= 0 ==> AllAbove(cmp, b, k)
    ensures cmp(k, x) >= 0 ==> AllBelow(cmp, a, k)
  {
    var s := a + [x] + b;
    assert s[|a|] == x;
    if cmp(k, x) <= 0 {
      forall i | 0 <= i < |b|
        ensures cmp(k, b[i]) < 0
      {
        assert s[|a| + 1 + i] == b[i];
        StrictTransitive(cmp, k, x, b[i]);
      }
    }
    if cmp(k, x) >= 0 {
      assert cmp(x, k) <= 0;
      forall i | 0 <= i < |a|
        ensures cmp(k, a[i]) > 0
      {
        assert s[i] == a[i];
        StrictTransitive(cmp, a[i], x, k);
      }
    }
  }

  /** A key that separates the two halves of a sorted sequence can be inserted between them. */
  lemma SortedInsert(cmp: Compare, a: seq<Key>, k: Key, b: seq<Key>)
    requires TotalOrder(cmp)
    requires Sorted(cmp, a + b) && AllBelow(cmp, a, k) && AllAbove(cmp, b, k)
    ensures Sorted(cmp, a + [k] + b)
  {
    var s, old_ := a + [k] + b, a + b;
    forall i, j | 0 <= i < j < |s|
      ensures cmp(s[i], s[j]) < 0
    {
      var i', j' := if i <= |a| then i else i - 1, if j <= |a| then j else j - 1;
      if i != |a| && j != |a| {
        assert s[i] == old_[i'] && s[j] == old_[j'];
      }
    }
  }
}
