/** The colour conditions of a red-black tree, for trees and for trees with a hole. */
module RbBalance {
  import opened Entries
  import opened RbShape

  ghost predicate IsRed(t: Tree) {
    t.Bin? && t.color == Red
  }

  ghost function Blacken(t: Tree): Tree {
    if t.Nil? then t else t.(color := Black)
  }

  ghost function Redden(t: Tree): Tree {
    if t.Nil? then t else t.(color := Red)
  }

  /** No red node has a red child, and every path down has `b` black nodes. */
  ghost predicate RB(t: Tree, b: nat) {
    match t
    case Nil => b == 0
    case Bin(l, _, Red, r) => !IsRed(l) && !IsRed(r) && RB(l, b) && RB(r, b)
    case Bin(l, _, Black, r) => b > 0 && RB(l, b - 1) && RB(r, b - 1)
  }

  ghost function BlackHeight(t: Tree): nat {
    match t
    case Nil => 0
    case Bin(l, _, c, _) => BlackHeight(l) + if c == Black then 1 else 0
  }

  /** The conditions that hold between two operations: those above, and the root is black. */
  ghost predicate RedBlack(t: Tree) {
    !IsRed(t) && RB(t, BlackHeight(t))
  }

  lemma {:induction false} HeightUnique(t: Tree, b: nat)
    requires RB(t, b)
    ensures BlackHeight(t) == b
  {
    match t
    case Nil =>
    case Bin(l, _, c, _) => HeightUnique(l, if c == Black then b - 1 else b);
  }

  // ---------- trees with a hole ----------

  ghost predicate CtxRed(ctx: Ctx) {
    !ctx.Top? && ctx.color == Red
  }

  /** A black-rooted tree of black height `b` in the hole makes a red-black tree with a black root. */
  ghost predicate CtxRB(ctx: Ctx, b: nat) {
    ctx.Top? ||
    if ctx.color == Red then
      RB(Sibling(ctx), b) && !IsRed(Sibling(ctx)) && !ctx.up.Top? && ctx.up.color == Black && CtxRB(ctx.up, b)
    else
      RB(Sibling(ctx), b) && CtxRB(ctx.up, b + 1)
  }

  ghost predicate Fits(ctx: Ctx, t: Tree, b: nat) {
    CtxRB(ctx, b) && RB(t, b) && !(CtxRed(ctx) && IsRed(t))
  }

  ghost function UpHeight(ctx: Ctx, b: nat): nat
    requires !ctx.Top?
  {
    if ctx.color == Red then b else b + 1
  }

  lemma {:induction false} FitsUp(ctx: Ctx, t: Tree, b: nat)
    requires !ctx.Top? && Fits(ctx, t, b)
    ensures Fits(ctx.up, Grow(ctx, t), UpHeight(ctx, b))
  {
  }

  lemma {:induction false} FitsDown(ctx: Ctx, t: Tree, b: nat)
    requires t.Bin? && Fits(ctx, t, b) && (ctx.Top? ==> t.color == Black)
    ensures var b' := if t.color == Red then b else b - 1;
      && b' >= 0
      && Fits(InLeft(ctx, t.node, t.color, t.right), t.left, b')
      && Fits(InRight(ctx, t.left, t.node, t.color), t.right, b')
  {
  }

  /** Filling the hole with a fitting tree gives a red-black tree, once its root is painted black. */
  lemma {:induction false} PlugFits(ctx: Ctx, t: Tree, b: nat)
    requires Fits(ctx, t, b)
    ensures RedBlack(Blacken(Plug(ctx, t)))
    ensures !(ctx.Top? && IsRed(t)) ==> RedBlack(Plug(ctx, t))
    decreases ctx
  {
    if ctx.Top? {
      var b' := if IsRed(t) then b + 1 else b;
      assert RB(Blacken(t), b');
      HeightUnique(Blacken(t), b');
      HeightUnique(t, b);
    } else {
      FitsUp(ctx, t, b);
      PlugFits(ctx.up, Grow(ctx, t), UpHeight(ctx, b));
    }
  }
}
