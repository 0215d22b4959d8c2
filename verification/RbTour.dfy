/** The links that `RB_NEXT` and `RB_PREV` follow: how many from one node to its neighbour. */
module RbTour {
  import opened Entries
  import opened RbShape

  /** The links from the top of a tree down to its leftmost node. */
  ghost function LeftSpine(t: Tree): nat {
    if t.Bin? && t.left.Bin? then 1 + LeftSpine(t.left) else 0
  }

  ghost function RightSpine(t: Tree): nat {
    if t.Bin? && t.right.Bin? then 1 + RightSpine(t.right) else 0
  }

  /** The links from the top of the hole up to the first node that comes after the hole, or to the root. */
  ghost function ClimbNext(ctx: Ctx): nat {
    match ctx
    case Top => 0
    case InLeft(_, _, _, _) => 1
    case InRight(up, _, _, _) => 1 + ClimbNext(up)
  }

  ghost function ClimbPrev(ctx: Ctx): nat {
    match ctx
    case Top => 0
    case InRight(_, _, _, _) => 1
    case InLeft(up, _, _, _) => 1 + ClimbPrev(up)
  }

  /** The links from the top of `t` to the next node. */
  ghost function NextLinks(ctx: Ctx, t: Tree): nat
    requires t.Bin?
  {
    if t.right.Bin? then 1 + LeftSpine(t.right) else ClimbNext(ctx)
  }

  ghost function PrevLinks(ctx: Ctx, t: Tree): nat
    requires t.Bin?
  {
    if t.left.Bin? then 1 + RightSpine(t.left) else ClimbPrev(ctx)
  }

  /** No more than the height of the whole tree. */
  lemma {:induction false} LinksDepth(ctx: Ctx, t: Tree)
    requires t.Bin?
    ensures NextLinks(ctx, t) <= Depth(ctx) + Height(t) && PrevLinks(ctx, t) <= Depth(ctx) + Height(t)
  {
    ClimbDepth(ctx);
    SpineHeight(t.left);
    SpineHeight(t.right);
  }

  lemma {:induction false} ClimbDepth(ctx: Ctx)
    ensures ClimbNext(ctx) <= Depth(ctx) && ClimbPrev(ctx) <= Depth(ctx)
  {
    if ctx.Top? {
    } else {
      ClimbDepth(ctx.up);
    }
  }

  lemma {:induction false} SpineHeight(t: Tree)
    ensures t.Bin? ==> LeftSpine(t) < Height(t) && RightSpine(t) < Height(t)
  {
    if t.Nil? {
    } else {
      SpineHeight(t.left);
      SpineHeight(t.right);
    }
  }

  // ---------- a whole tour ----------

  /** How many more left links than right links lead from the root to the node with index `i`. */
  ghost function Lean(t: Tree, i: nat): int
    requires i < |InOrder(t)|
  {
    var n := |InOrder(t.left)|;
    if i < n then 1 + Lean(t.left, i) else if i == n then 0 else Lean(t.right, i - n - 1) - 1
  }

  ghost function CtxLean(ctx: Ctx): int {
    match ctx
    case Top => 0
    case InLeft(up, _, _, _) => CtxLean(up) + 1
    case InRight(up, _, _, _) => CtxLean(up) - 1
  }

  lemma {:induction false} LeanAt(ctx: Ctx, t: Tree, j: nat)
    requires j < |InOrder(t)|
    ensures |InOrder(Plug(ctx, t))| == |Before(ctx)| + |InOrder(t)| + |After(ctx)|
    ensures Lean(Plug(ctx, t), |Before(ctx)| + j) == CtxLean(ctx) + Lean(t, j)
    decreases ctx
  {
    PlugInOrder(ctx, t);
    if ctx.Top? {
    } else {
      LeanAt(ctx.up, Grow(ctx, t), if ctx.InLeft? then j else |InOrder(ctx.left)| + 1 + j);
    }
  }

  lemma {:induction false} LeanEnds(t: Tree)
    requires t.Bin?
    ensures |InOrder(t)| > 0 && Lean(t, 0) == LeftSpine(t) && Lean(t, |InOrder(t)| - 1) + RightSpine(t) == 0
  {
    if t.left.Nil? {
    } else {
      LeanEnds(t.left);
    }
    if t.right.Nil? {
    } else {
      LeanEnds(t.right);
    }
  }

  lemma {:induction false} ClimbNextLean(ctx: Ctx, t: Tree)
    requires t.Bin?
    ensures var shape, e := Plug(ctx, t), |Before(ctx)| + |InOrder(t)|;
      && e <= |InOrder(shape)|
      && ClimbNext(ctx) == if e < |InOrder(shape)| then Lean(shape, e) + 2 - CtxLean(ctx) else -CtxLean(ctx)
    decreases ctx
  {
    PlugInOrder(ctx, t);
    if ctx.Top? {
    } else if ctx.InLeft? {
      LeanAt(ctx.up, Grow(ctx, t), |InOrder(t)|);
    } else {
      ClimbNextLean(ctx.up, Grow(ctx, t));
    }
  }

  lemma {:induction false} ClimbPrevLean(ctx: Ctx, t: Tree)
    requires t.Bin?
    ensures var shape, b := Plug(ctx, t), |Before(ctx)|;
      && b < |InOrder(shape)|
      && ClimbPrev(ctx) == if b > 0 then CtxLean(ctx) + 2 - Lean(shape, b - 1) else CtxLean(ctx)
    decreases ctx
  {
    PlugInOrder(ctx, t);
    if ctx.Top? {
    } else if ctx.InRight? {
      LeanAt(ctx.up, Grow(ctx, t), |InOrder(ctx.left)|);
    } else {
      ClimbPrevLean(ctx.up, Grow(ctx, t));
    }
  }

  /** The place of the node at the top of `t` in the whole sequence. */
  ghost function Place(ctx: Ctx, t: Tree): nat
    requires t.Bin?
  {
    |Before(ctx)| + |InOrder(t.left)|
  }

  /** What a step to the next node adds to the tour: two links, and the change of the lean; after the
      last node the climb ends at the root. */
  lemma {:induction false} NextLean(ctx: Ctx, t: Tree)
    requires t.Bin?
    ensures var shape, i := Plug(ctx, t), Place(ctx, t);
      && i < |InOrder(shape)|
      && NextLinks(ctx, t) ==
         if i + 1 < |InOrder(shape)| then Lean(shape, i + 1) + 2 - Lean(shape, i) else -Lean(shape, i)
  {
    var n := |InOrder(t.left)|;
    LeanAt(ctx, t, n);
    if t.right.Nil? {
      ClimbNextLean(ctx, t);
    } else {
      LeanEnds(t.right);
      LeanAt(ctx, t, n + 1);
    }
  }

  lemma {:induction false} PrevLean(ctx: Ctx, t: Tree)
    requires t.Bin?
    ensures var shape, i := Plug(ctx, t), Place(ctx, t);
      && i < |InOrder(shape)|
      && PrevLinks(ctx, t) == if i > 0 then Lean(shape, i) + 2 - Lean(shape, i - 1) else Lean(shape, i)
  {
    var n := |InOrder(t.left)|;
    LeanAt(ctx, t, n);
    if t.left.Nil? {
      ClimbPrevLean(ctx, t);
    } else {
      LeanEnds(t.left);
      LeanAt(ctx, t, n - 1);
    }
  }
}
