/** `RB_FIND`, `RB_NFIND`, `RB_MINMAX`, and the height bound that limits their work. */
module RbSearch {
  import opened Order
  import opened Entries
  import opened RbShape
  import opened RbBalance
  import opened RbStore
  import opened RbTree
  import opened RbTour
  import opened Power

  // ---------- the height bound ----------

  lemma {:induction false} HeightAndSize(t: Tree, b: nat)
    requires RB(t, b)
    ensures Height(t) <= 2 * b + if IsRed(t) then 1 else 0
    ensures |InOrder(t)| + 1 >= Pow2(b)
  {
    match t
    case Nil =>
    case Bin(l, _, c, r) =>
      var d := if c == Black then b - 1 else b;
      HeightAndSize(l, d);
      HeightAndSize(r, d);
  }

  /** The height of a red-black tree with `n` nodes is at most `2 lg(n + 1)`. */
  lemma {:induction false} HeightBound(t: Tree)
    requires RedBlack(t)
    ensures var n := |InOrder(t)|; Pow2(Height(t)) <= (n + 1) * (n + 1)
  {
    var b, n := BlackHeight(t), |InOrder(t)|;
    HeightAndSize(t, b);
    Pow2Monotone(Height(t), b + b);
    Pow2Sum(b, b);
    Product(Pow2(b), n + 1);
  }

  lemma {:induction false} Product(a: nat, c: nat)
    requires a <= c
    ensures a * a <= c * c
  {
    assert a * a <= a * c;
    assert a * c <= c * c;
  }

  /** `comparisons` is within the bound for a tree of `n` nodes. */
  ghost predicate WithinBound(comparisons: nat, n: nat) {
    Pow2(comparisons) <= (n + 1) * (n + 1)
  }

  lemma {:induction false} Within(comparisons: nat, h: Head)
    requires Valid(h) && comparisons <= Height(h.shape)
    ensures WithinBound(comparisons, |Elements(h)|)
  {
    HeightBound(h.shape);
    Pow2Monotone(comparisons, Height(h.shape));
  }

  lemma {:induction false} PlugHeight(ctx: Ctx, t: Tree)
    ensures Height(Plug(ctx, t)) >= Depth(ctx) + Height(t)
    decreases ctx
  {
    if ctx.Top? {
    } else {
      PlugHeight(ctx.up, Grow(ctx, t));
    }
  }

  /** No place in a tree that meets the conditions is deeper than the bound. */
  lemma {:induction false} DepthBound(ctx: Ctx, t: Tree, b: nat, count: nat)
    requires Fits(ctx, t, b) && (ctx.Top? ==> !IsRed(t)) && count <= Depth(ctx) + Height(t)
    ensures WithinBound(count, |Flat(ctx, t)|)
  {
    var shape := Plug(ctx, t);
    PlugFits(ctx, t, b);
    PlugHeight(ctx, t);
    PlugInOrder(ctx, t);
    HeightBound(shape);
    Pow2Monotone(count, Height(shape));
  }

  // ---------- searching ----------

  /** The equal node, or null if there is none. */
  method Find(h: Head, elm: Elem) returns (r: Elem?, ghost comparisons: nat)
    requires Valid(h)
    ensures r != null ==> r in Elements(h) && h.cmp(elm.key, r.key) == 0
    ensures r == null ==> forall n :: n in Elements(h) ==> h.cmp(elm.key, n.key) != 0
    ensures WithinBound(comparisons, |Elements(h)|)
  {
    ghost var s, ctx, t, b := h.store, Top, h.shape, BlackHeight(h.shape);
    comparisons := 0;
    var tmp := h.root;
    while tmp != null
      invariant Here(s, h.shape, h.cmp, ctx, t, b, elm.key) && tmp == Root(t)
      invariant comparisons + Height(t) <= Height(h.shape)
      decreases t
    {
      var comp := h.cmp(elm.key, tmp.key);
      comparisons := comparisons + 1;
      Fields(s, ctx, t);
      if comp < 0 {
        tmp := tmp.left;
        GoLeft(s, h.shape, h.cmp, ctx, t, b, elm.key);
        b := if t.color == Red then b else b - 1;
        ctx, t := InLeft(ctx, t.node, t.color, t.right), t.left;
      } else if comp > 0 {
        tmp := tmp.right;
        GoRight(s, h.shape, h.cmp, ctx, t, b, elm.key);
        b := if t.color == Red then b else b - 1;
        ctx, t := InRight(ctx, t.left, t.node, t.color), t.right;
      } else {
        Within(comparisons, h);
        return tmp, comparisons;
      }
    }
    NotFound(h.cmp, ctx, elm.key);
    Within(comparisons, h);
    r := null;
  }

  /** `r` is the first node of `s` whose key is not less than `k`; null if there is none. */
  ghost predicate FirstNotBelow(cmp: Compare, s: seq<Elem>, k: Key, r: Elem?) {
    if r == null then forall n :: n in s ==> cmp(k, n.key) > 0
    else exists i :: 0 <= i < |s| && s[i] == r && cmp(k, r.key) <= 0 && forall j :: 0 <= j < i ==> cmp(k, s[j].key) > 0
  }

  /** All of `a` is below `k`, and the first of `b` is not. */
  lemma {:induction false} FirstOfRest(cmp: Compare, a: seq<Elem>, b: seq<Elem>, k: Key)
    requires AllBelow(cmp, Keys(a), k) && (b != [] ==> cmp(k, b[0].key) <= 0)
    ensures FirstNotBelow(cmp, a + b, k, if b == [] then null else b[0])
  {
    var s := a + b;
    forall j | 0 <= j < |a|
      ensures cmp(k, s[j].key) > 0
    {
      assert Keys(a)[j] == s[j].key;
    }
    if b != [] {
      assert s[|a|] == b[0];
    }
  }

  lemma {:induction false} FlatAt(ctx: Ctx, t: Tree)
    requires t.Bin?
    ensures Flat(ctx, t) == (Before(ctx) + InOrder(t.left)) + ([t.node] + (InOrder(t.right) + After(ctx)))
  {
  }

  /** The ends of the two sides of the hole after a step down. */
  lemma {:induction false} Ends(ctx: Ctx, t: Tree)
    requires t.Bin?
    ensures var l := InLeft(ctx, t.node, t.color, t.right);
      Before(l) == Before(ctx) && First(After(l)) == t.node && Flat(l, t.left) == Flat(ctx, t)
    ensures var r := InRight(ctx, t.left, t.node, t.color);
      After(r) == After(ctx) && Last(Before(r)) == t.node && Flat(r, t.right) == Flat(ctx, t)
  {
    FlatUp(InLeft(ctx, t.node, t.color, t.right), t.left);
    FlatUp(InRight(ctx, t.left, t.node, t.color), t.right);
  }

  lemma {:induction false} AtEqual(s: Store, shape: Tree, cmp: Compare, ctx: Ctx, t: Tree, b: nat, k: Key)
    requires Here(s, shape, cmp, ctx, t, b, k) && TotalOrder(cmp) && t.Bin? && cmp(k, t.node.key) == 0
    ensures FirstNotBelow(cmp, InOrder(shape), k, t.node)
  {
    Compared(cmp, ctx, t, k);
    var a, rest := Before(ctx) + InOrder(t.left), [t.node] + (InOrder(t.right) + After(ctx));
    FirstOfRest(cmp, a, rest, k);
    FlatAt(ctx, t);
  }

  lemma {:induction false} AtEnd(s: Store, shape: Tree, cmp: Compare, ctx: Ctx, b: nat, k: Key)
    requires Here(s, shape, cmp, ctx, Nil, b, k)
    ensures FirstNotBelow(cmp, InOrder(shape), k, First(After(ctx)))
  {
    if After(ctx) != [] {
      assert Keys(After(ctx))[0] == After(ctx)[0].key;
    }
    FirstOfRest(cmp, Before(ctx), After(ctx), k);
    assert InOrder(shape) == Before(ctx) + After(ctx);
  }

  /** After a step down, the first node after the hole is the node passed on the left, or as before. */
  lemma {:induction false} NextAbove(ctx: Ctx, t: Tree)
    requires t.Bin?
    ensures First(After(InLeft(ctx, t.node, t.color, t.right))) == t.node
    ensures First(After(InRight(ctx, t.left, t.node, t.color))) == First(After(ctx))
  {
  }

  /** Where a search starts. */
  lemma {:induction false} Start(h: Head, k: Key)
    requires Valid(h)
    ensures Here(h.store, h.shape, h.cmp, Top, h.shape, BlackHeight(h.shape), k)
    ensures h.root == Root(h.shape) && First(After(Top)) == null
  {
    FlatTop(h.shape);
  }

  /** The least node not below `elm`, or null. */
  method NFind(h: Head, elm: Elem) returns (r: Elem?, ghost comparisons: nat)
    requires Valid(h)
    ensures FirstNotBelow(h.cmp, Elements(h), elm.key, r)
    ensures WithinBound(comparisons, |Elements(h)|)
  {
    ghost var s, ctx, t, b := h.store, Top, h.shape, BlackHeight(h.shape);
    comparisons := 0;
    var tmp := h.root;
    var res: Elem? := null;
    Start(h, elm.key);
    while tmp != null
      invariant Here(s, h.shape, h.cmp, ctx, t, b, elm.key) && tmp == Root(t)
      invariant res == First(After(ctx))
      invariant comparisons + Height(t) <= Height(h.shape)
      decreases t
    {
      var comp := h.cmp(elm.key, tmp.key);
      comparisons := comparisons + 1;
      Fields(s, ctx, t);
      NextAbove(ctx, t);
      if comp < 0 {
        res := tmp;
        tmp := tmp.left;
        GoLeft(s, h.shape, h.cmp, ctx, t, b, elm.key);
        b := if t.color == Red then b else b - 1;
        ctx, t := InLeft(ctx, t.node, t.color, t.right), t.left;
      } else if comp > 0 {
        tmp := tmp.right;
        GoRight(s, h.shape, h.cmp, ctx, t, b, elm.key);
        b := if t.color == Red then b else b - 1;
        ctx, t := InRight(ctx, t.left, t.node, t.color), t.right;
      } else {
        AtEqual(s, h.shape, h.cmp, ctx, t, b, elm.key);
        Within(comparisons, h);
        return tmp, comparisons;
      }
    }
    AtEnd(s, h.shape, h.cmp, ctx, b, elm.key);
    Within(comparisons, h);
    r := res;
  }

  // ---------- the ends ----------

  /** The nodes on the way to an end of the tree. */
  ghost function EndSteps(t: Tree, val: int): nat {
    if t.Nil? then 0 else 1 + if val < 0 then LeftSpine(t) else RightSpine(t)
  }

  /** `RB_MIN` for a negative `val`, otherwise `RB_MAX`. */
  method MinMax(h: Head, val: int) returns (r: Elem?, ghost steps: nat)
    requires Valid(h)
    ensures r == if val < 0 then First(Elements(h)) else Last(Elements(h))
    ensures WithinBound(steps, |Elements(h)|)
    ensures steps == EndSteps(h.shape, val)
  {
    hide WithinBound, Rep, RB, Nodes, CtxNodes;
    steps := 0;
    ghost var s, ctx, t, all := h.store, Top, h.shape, Elements(h);
    FlatTop(t);
    var tmp := h.root;
    r := null;
    while tmp != null
      invariant Zip(s, ctx, t) && tmp == Root(t) && r == Parent(ctx)
      invariant Flat(ctx, t) == all
      invariant val < 0 ==> Before(ctx) == [] && r == First(After(ctx))
      invariant val >= 0 ==> After(ctx) == [] && r == Last(Before(ctx))
      invariant steps + Height(t) <= Height(h.shape) && steps + EndSteps(t, val) == EndSteps(h.shape, val)
      decreases t
    {
      r := tmp;
      steps := steps + 1;
      Fields(s, ctx, t);
      Ends(ctx, t);
      if val < 0 {
        tmp := tmp.left;
        DownLeft(s, ctx, t);
        ctx, t := InLeft(ctx, t.node, t.color, t.right), t.left;
      } else {
        tmp := tmp.right;
        DownRight(s, ctx, t);
        ctx, t := InRight(ctx, t.left, t.node, t.color), t.right;
      }
    }
    FlatNil(ctx);
    Within(steps, h);
  }
}
