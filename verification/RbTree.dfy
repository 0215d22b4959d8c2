/** The red-black tree between two operations, and the operations that search it. */
module RbTree {
  import opened Order
  import opened Entries
  import opened RbShape
  import opened RbBalance
  import opened RbStore

  /** The head holds `h.shape`: linked by the pointers, ascending in the keys, with the colour conditions. */
  ghost predicate Valid(h: Head)
    reads h, h.store.mem.Keys`left, h.store.mem.Keys`right, h.store.mem.Keys`parent, h.store.mem.Keys`color
  {
    && Holds(h, h.store) && Zip(h.store, Top, h.shape)
    && Tracks(h.store.mem, InOrder(h.shape))
    && RedBlack(h.shape)
    && TotalOrder(h.cmp) && Sorted(h.cmp, Keys(InOrder(h.shape)))
  }

  /** The nodes of the tree in ascending order. */
  ghost function Elements(h: Head): seq<Elem>
    reads h
  {
    InOrder(h.shape)
  }

  /** What the sequence of a valid tree is known to be. */
  lemma {:induction false} Ordered(h: Head)
    requires Valid(h)
    ensures TotalOrder(h.cmp) && Sorted(h.cmp, Keys(Elements(h)))
  {
  }

  /** Records in the head what its heap now holds. */
  ghost method Commit(h: Head, s: Store, shape: Tree)
    requires Holds(h, s) && Zip(s, Top, shape) && Tracks(s.mem, InOrder(shape)) && RedBlack(shape)
    requires TotalOrder(h.cmp) && Sorted(h.cmp, Keys(InOrder(shape)))
    modifies h`store, h`shape
    ensures Valid(h) && h.store == s && h.shape == shape
  {
    h.store, h.shape := s, shape;
  }

  /** The place a search for `k` has reached: all before it is smaller, all after it greater. */
  ghost predicate At(cmp: Compare, ctx: Ctx, t: Tree, k: Key) {
    && Sorted(cmp, Keys(Flat(ctx, t)))
    && AllBelow(cmp, Keys(Before(ctx)), k) && AllAbove(cmp, Keys(After(ctx)), k)
  }

  /** One comparison with the node at the top settles everything on one side of it. */
  lemma {:induction false} Compared(cmp: Compare, ctx: Ctx, t: Tree, k: Key)
    requires TotalOrder(cmp) && t.Bin? && Sorted(cmp, Keys(Flat(ctx, t)))
    ensures cmp(k, t.node.key) <= 0 ==> AllAbove(cmp, Keys(InOrder(t.right) + After(ctx)), k)
    ensures cmp(k, t.node.key) >= 0 ==> AllBelow(cmp, Keys(Before(ctx) + InOrder(t.left)), k)
  {
    var a, b := Before(ctx) + InOrder(t.left), InOrder(t.right) + After(ctx);
    assert Flat(ctx, t) == a + [t.node] + b;
    ComparedAt(cmp, a, t.node, b, k);
  }

  lemma {:induction false} AboveCons(cmp: Compare, n: Elem, s: seq<Elem>, k: Key)
    requires cmp(k, n.key) < 0 && AllAbove(cmp, Keys(s), k)
    ensures AllAbove(cmp, Keys([n] + s), k)
  {
  }

  lemma {:induction false} BelowSnoc(cmp: Compare, s: seq<Elem>, n: Elem, k: Key)
    requires cmp(k, n.key) > 0 && AllBelow(cmp, Keys(s), k)
    ensures AllBelow(cmp, Keys(s + [n]), k)
  {
  }

  lemma {:induction false} StepLeft(cmp: Compare, ctx: Ctx, t: Tree, k: Key)
    requires TotalOrder(cmp) && t.Bin? && At(cmp, ctx, t, k) && cmp(k, t.node.key) < 0
    ensures At(cmp, InLeft(ctx, t.node, t.color, t.right), t.left, k)
  {
    var rest := InOrder(t.right) + After(ctx);
    assert AllAbove(cmp, Keys(rest), k) by { Compared(cmp, ctx, t, k); }
    FlatUp(InLeft(ctx, t.node, t.color, t.right), t.left);
    AboveCons(cmp, t.node, rest, k);
  }

  lemma {:induction false} StepRight(cmp: Compare, ctx: Ctx, t: Tree, k: Key)
    requires TotalOrder(cmp) && t.Bin? && At(cmp, ctx, t, k) && cmp(k, t.node.key) > 0
    ensures At(cmp, InRight(ctx, t.left, t.node, t.color), t.right, k)
  {
    var rest := Before(ctx) + InOrder(t.left);
    assert AllBelow(cmp, Keys(rest), k) by { Compared(cmp, ctx, t, k); }
    FlatUp(InRight(ctx, t.left, t.node, t.color), t.right);
    BelowSnoc(cmp, rest, t.node, k);
  }

  /** A search for `k` in the tree `shape` of the store has come to the hole of `ctx`, with `t` below. */
  ghost predicate Here(s: Store, shape: Tree, cmp: Compare, ctx: Ctx, t: Tree, b: nat, k: Key) {
    && Zip(s, ctx, t) && Flat(ctx, t) == InOrder(shape)
    && Fits(ctx, t, b) && (ctx.Top? ==> !IsRed(t))
    && At(cmp, ctx, t, k)
  }

  lemma {:induction false} GoLeft(s: Store, shape: Tree, cmp: Compare, ctx: Ctx, t: Tree, b: nat, k: Key)
    requires Here(s, shape, cmp, ctx, t, b, k) && TotalOrder(cmp) && t.Bin? && cmp(k, t.node.key) < 0
    ensures t.color == Red || b > 0
    ensures Here(s, shape, cmp, InLeft(ctx, t.node, t.color, t.right), t.left, if t.color == Red then b else b - 1, k)
  {
    DownLeft(s, ctx, t);
    FlatUp(InLeft(ctx, t.node, t.color, t.right), t.left);
    FitsDown(ctx, t, b);
    StepLeft(cmp, ctx, t, k);
  }

  lemma {:induction false} GoRight(s: Store, shape: Tree, cmp: Compare, ctx: Ctx, t: Tree, b: nat, k: Key)
    requires Here(s, shape, cmp, ctx, t, b, k) && TotalOrder(cmp) && t.Bin? && cmp(k, t.node.key) > 0
    ensures t.color == Red || b > 0
    ensures Here(s, shape, cmp, InRight(ctx, t.left, t.node, t.color), t.right, if t.color == Red then b else b - 1, k)
  {
    DownRight(s, ctx, t);
    FlatUp(InRight(ctx, t.left, t.node, t.color), t.right);
    FitsDown(ctx, t, b);
    StepRight(cmp, ctx, t, k);
  }

  /** Where the search falls off the tree, no key is equal and this is the place for a new one. */
  lemma {:induction false} NotFound(cmp: Compare, ctx: Ctx, k: Key)
    requires TotalOrder(cmp) && At(cmp, ctx, Nil, k)
    ensures forall n :: n in Flat(ctx, Nil) ==> cmp(k, n.key) != 0
    ensures Sorted(cmp, Keys(Before(ctx)) + [k] + Keys(After(ctx)))
  {
    NoneEqual(cmp, Before(ctx), k);
    NoneEqual(cmp, After(ctx), k);
    assert Flat(ctx, Nil) == Before(ctx) + After(ctx);
    KeysConcat(Before(ctx), After(ctx));
    SortedInsert(cmp, Keys(Before(ctx)), k, Keys(After(ctx)));
  }
}
