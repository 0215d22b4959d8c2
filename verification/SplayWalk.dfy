/** The links that `SPLAY_NEXT` follows after its splay: when they are paid for, and when they are not. */
module SplayWalk {
  import opened Order
  import opened Entries
  import opened OrderedSet
  import opened SplayStore
  import opened SplayPart
  import opened SplayAccount

  /** How many times the search for the leftmost node goes on to a left child. */
  ghost function LeftSpine(t: Tree): nat {
    if t.Bin? && t.left.Bin? then 1 + LeftSpine(t.left) else 0
  }

  /** How many links lead from a node, over its child `t`, to the leftmost node of `t`. */
  ghost function Links(t: Tree): nat {
    if t.Bin? then 1 + LeftSpine(t) else 0
  }

  /** How many links `SPLAY_NEXT` follows from the root of `t`. */
  ghost function Walk(t: Tree): nat {
    if t.Bin? then Links(t.right) else 0
  }

  // ---------- paid for by the next access ----------

  lemma {:induction false} FirstOf(t: Tree)
    requires t.Bin?
    ensures First(InOrder(t)) == if t.left.Nil? then t.node else First(InOrder(t.left))
    ensures InOrder(t) != []
  {
    if t.left.Nil? {
    } else {
      FirstOf(t.left);
    }
  }

  /** The first node of a tree is below the root, unless it is the root. */
  lemma {:induction false} FirstBelow(cmp: Compare, t: Tree)
    requires TotalOrder(cmp) && t.Bin? && Sorted(cmp, Keys(InOrder(t)))
    ensures var y := First(InOrder(t));
      && y != null && (if t.left.Nil? then y == t.node && cmp(y.key, t.node.key) == 0 else cmp(y.key, t.node.key) < 0)
  {
    FirstOf(t);
    var s, ks := InOrder(t), Keys(InOrder(t));
    if t.left.Nil? {
      assert cmp(t.node.key, t.node.key) == 0;
    } else {
      FirstOf(t.left);
      var i := |InOrder(t.left)|;
      assert s[i] == t.node && ks[0] == s[0].key && ks[i] == s[i].key;
      assert cmp(ks[0], ks[i]) < 0;
    }
  }

  /** A splay to the first node goes down the left spine two links at a time. */
  lemma {:induction false} SpinePaid(cmp: Compare, t: Tree, y: Elem)
    requires TotalOrder(cmp) && t.Bin? && Sorted(cmp, Keys(InOrder(t))) && First(InOrder(t)) == y
    ensures LeftSpine(t) <= 2 * Part(cmp, t, y.key).steps
    decreases t
  {
    FirstBelow(cmp, t);
    if t.left.Nil? {
    } else {
      var d := t.left;
      FirstOf(t);
      SubtreesSorted(cmp, t);
      FirstBelow(cmp, d);
      if d.left.Nil? {
      } else {
        FirstOf(d);
        SubtreesSorted(cmp, d);
        SpinePaid(cmp, d.left, y);
      }
    }
  }

  /** The links from the root to the node `y` that `SPLAY_NEXT` returns are at most twice the steps of
      the splay that the next access to `y` makes. */
  lemma {:induction false} WalkPaid(cmp: Compare, t: Tree, y: Elem)
    requires TotalOrder(cmp) && t.Bin? && t.right.Bin? && Sorted(cmp, Keys(InOrder(t)))
    requires First(InOrder(t.right)) == y
    ensures Walk(t) <= 2 * Part(cmp, t, y.key).steps
  {
    SubtreesSorted(cmp, t);
    FirstBelow(cmp, t.right);
    SpinePaid(cmp, t.right, y);
    AboveRoot(cmp, t, y);
  }

  lemma {:induction false} AboveRoot(cmp: Compare, t: Tree, y: Elem)
    requires TotalOrder(cmp) && t.Bin? && Sorted(cmp, Keys(InOrder(t))) && First(InOrder(t.right)) == y
    ensures cmp(y.key, t.node.key) > 0
  {
    var s, ks, i := InOrder(t), Keys(InOrder(t)), |InOrder(t.left)|;
    assert s[i] == t.node && s[i + 1] == y;
    assert cmp(ks[i], ks[i + 1]) < 0;
  }

  // ---------- not paid for by any other ----------

  /** A splay to the key of the root changes nothing. */
  lemma {:induction false} RootStays(cmp: Compare, t: Tree)
    requires TotalOrder(cmp) && t.Bin?
    ensures Splayed(cmp, t, t.node.key) == t
  {
    assert cmp(t.node.key, t.node.key) == 0;
  }

  /** If the next access is to the root again, its splay has no steps, and the links are paid for only
      where there are none. */
  lemma {:induction false} RootUnpaid(cmp: Compare, t: Tree)
    requires TotalOrder(cmp) && t.Bin?
    ensures Walk(t) <= 2 * Part(cmp, t, t.node.key).steps <==> t.right.Nil?
  {
    assert cmp(t.node.key, t.node.key) == 0;
  }

  /** Insertions, in the order of the sequence. */
  function Puts(s: seq<Elem>): seq<Op> {
    if s == [] then [] else Puts(s[..|s| - 1]) + [Put(s[|s| - 1])]
  }

  lemma {:induction false} PutsArgs(s: seq<Elem>)
    ensures |Puts(s)| == |s| && Args(Puts(s)) <= AsSet(s)
  {
    if s == [] {
    } else {
      var k := |s| - 1;
      PutsArgs(s[..k]);
      assert forall op <- Puts(s) :: op in Puts(s[..k]) || op == Put(s[k]);
      assert forall n <- AsSet(s[..k]) :: n in s;
    }
  }

  /** A chain of left children, the last element at the top. */
  ghost function Chain(s: seq<Elem>): Tree {
    if s == [] then Nil else Bin(Chain(s[..|s| - 1]), s[|s| - 1], Nil)
  }

  /** Inserting in ascending order leaves a chain. */
  lemma {:induction false} AscendingRun(cmp: Compare, s: seq<Elem>)
    requires TotalOrder(cmp) && Sorted(cmp, Keys(s))
    ensures RunShape(cmp, Nil, Puts(s)) == Chain(s)
  {
    if s == [] {
    } else {
      var k := |s| - 1;
      PrefixSorted(cmp, s);
      AscendingRun(cmp, s[..k]);
      assert Puts(s)[..|Puts(s)| - 1] == Puts(s[..k]);
      if k > 0 {
        assert cmp(Keys(s)[k - 1], Keys(s)[k]) < 0;
      }
    }
  }

  lemma {:induction false} PrefixSorted(cmp: Compare, s: seq<Elem>)
    requires s != [] && Sorted(cmp, Keys(s))
    ensures Sorted(cmp, Keys(s[..|s| - 1]))
  {
    var ks, p := Keys(s), Keys(s[..|s| - 1]);
    forall i, j | 0 <= i < j < |p|
      ensures cmp(p[i], p[j]) < 0
    {
      assert cmp(ks[i], ks[j]) < 0;
    }
  }

  /** Looking for the first element folds the chain once: every other element stays on the spine. */
  lemma {:induction false} Folded(cmp: Compare, s: seq<Elem>, r: nat)
    requires TotalOrder(cmp) && Sorted(cmp, Keys(s)) && |s| == 2 * r + 1
    ensures var p := Part(cmp, Chain(s), s[0].key); p.left.Nil? && p.node == s[0] && Links(p.right) == r
  {
    var k := s[0].key;
    if r == 0 {
      assert cmp(k, k) == 0;
    } else {
      var a, b := s[..2 * r], s[..2 * r - 1];
      PrefixSorted(cmp, s);
      PrefixSorted(cmp, a);
      assert a[..2 * r - 1] == b;
      assert cmp(Keys(s)[0], Keys(s)[2 * r]) < 0 && cmp(Keys(s)[0], Keys(s)[2 * r - 1]) < 0;
      Folded(cmp, b, r - 1);
    }
  }

  /** Insertions in ascending order, then a search for the first element. */
  function StuckOps(s: seq<Elem>): seq<Op>
    requires s != []
  {
    Puts(s) + [Seek(s[0])]
  }

  /** The links that follow a splay have no amortized bound of their own: from an empty tree, `2 r + 2`
      operations lead to a tree from whose root `SPLAY_NEXT` follows `r` links and which it leaves as it is. */
  lemma {:induction false} StuckRun(cmp: Compare, s: seq<Elem>, r: nat)
    requires TotalOrder(cmp) && Sorted(cmp, Keys(s)) && |s| == 2 * r + 1
    ensures |StuckOps(s)| == 2 * r + 2 && Args(StuckOps(s)) <= AsSet(s)
    ensures var t := RunShape(cmp, Nil, StuckOps(s));
      t.Bin? && t.left.Nil? && t.node == s[0] && Walk(t) == r && Splayed(cmp, t, t.node.key) == t
  {
    hide Chain, Part;
    var ops := StuckOps(s);
    PutsArgs(s);
    assert forall op <- ops :: op in Puts(s) || op == Seek(s[0]);
    assert ops[..|ops| - 1] == Puts(s);
    AscendingRun(cmp, s);
    Folded(cmp, s, r);
    RootStays(cmp, Whole(Part(cmp, Chain(s), s[0].key)));
  }
}
