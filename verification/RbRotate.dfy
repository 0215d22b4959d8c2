/** `RB_ROTATE_LEFT` and `RB_ROTATE_RIGHT`. */
module RbRotate {
  import opened Entries
  import opened RbShape
  import opened RbStore

  ghost predicate Clear(n: Elem, ctx: Ctx, a: Tree, b: Tree, c: Tree) {
    n !in CtxNodes(ctx) && n !in Nodes(a) && n !in Nodes(b) && n !in Nodes(c)
  }

  /** A node and its child, the three subtrees of the two, and the context share no node. */
  ghost predicate Apart(ctx: Ctx, x: Elem, y: Elem, a: Tree, b: Tree, c: Tree) {
    && x != y && Clear(x, ctx, a, b, c) && Clear(y, ctx, a, b, c)
    && Nodes(a) !! Nodes(b) && Nodes(a) !! Nodes(c) && Nodes(b) !! Nodes(c)
    && Nodes(a) !! CtxNodes(ctx) && Nodes(b) !! CtxNodes(ctx) && Nodes(c) !! CtxNodes(ctx)
  }

  lemma {:induction false} OpenRight(s: Store, ctx: Ctx, t: Tree)
    requires Zip(s, ctx, t) && t.Bin? && t.right.Bin?
    ensures var x, y, a, b, c := t.node, t.right.node, t.left, t.right.left, t.right.right;
      && Apart(ctx, x, y, a, b, c)
      && RepCtx(s, ctx, x) && Rep(s.mem, a, x) && Rep(s.mem, b, y) && Rep(s.mem, c, y)
      && x in s.mem && s.mem[x] == Cell(Root(a), y, Parent(ctx), t.color)
      && y in s.mem && s.mem[y] == Cell(Root(b), Root(c), x, t.right.color)
  {
    assert Rep(s.mem, t.right, t.node);
  }

  lemma {:induction false} OpenLeft(s: Store, ctx: Ctx, t: Tree)
    requires Zip(s, ctx, t) && t.Bin? && t.left.Bin?
    ensures var x, y, a, b, c := t.node, t.left.node, t.right, t.left.right, t.left.left;
      && Apart(ctx, x, y, a, b, c)
      && RepCtx(s, ctx, x) && Rep(s.mem, a, x) && Rep(s.mem, b, y) && Rep(s.mem, c, y)
      && x in s.mem && s.mem[x] == Cell(y, Root(a), Parent(ctx), t.color)
      && y in s.mem && s.mem[y] == Cell(Root(c), Root(b), x, t.left.color)
  {
    assert Rep(s.mem, t.left, t.node);
  }

  /** Writing to `n` leaves the context and two trees alone. */
  lemma {:induction false} KeepBoth(s: Store, n: Elem, e: Cell, ctx: Ctx, hole: Elem?, a: Tree, pa: Elem?, c: Tree,
      pc: Elem?)
    requires RepCtx(s, ctx, hole) && Rep(s.mem, a, pa) && Rep(s.mem, c, pc)
    requires n !in CtxNodes(ctx) && n !in Nodes(a) && n !in Nodes(c)
    ensures var s' := Set(s, n, e); RepCtx(s', ctx, hole) && Rep(s'.mem, a, pa) && Rep(s'.mem, c, pc)
  {
    KeepCtx(s, n, e, ctx, hole);
    Keep(s.mem, n, e, a, pa);
    Keep(s.mem, n, e, c, pc);
  }

  /** The middle subtree `b` passes from the lower node `y` to the right of the upper node `x`. */
  method PassLeft(h: Head, x: Elem, y: Elem, ghost s0: Store, ghost ctx: Ctx, ghost a: Tree, ghost b: Tree,
      ghost c: Tree)
    returns (ghost s: Store)
    requires Holds(h, s0) && Apart(ctx, x, y, a, b, c)
    requires x in s0.mem && y in s0.mem && s0.mem[x].parent == Parent(ctx) && s0.mem[y].left == Root(b)
    requires RepCtx(s0, ctx, x) && Rep(s0.mem, a, x) && Rep(s0.mem, b, y) && Rep(s0.mem, c, y)
    modifies x`right, y`parent, Opt(y.left)`parent
    ensures Holds(h, s) && s.mem.Keys == s0.mem.Keys
    ensures s.mem[x] == s0.mem[x].(right := Root(b)) && s.mem[y] == s0.mem[y].(parent := Parent(ctx))
    ensures RepCtx(s, ctx, x) && Rep(s.mem, a, x) && Rep(s.mem, b, x) && Rep(s.mem, c, y)
  {
    hide Rep, RepCtx;
    ghost var s1 := SetRight(h, x, y.left, s0);
    KeepBoth(s0, x, s1.mem[x], ctx, x, a, x, c, y);
    Keep(s0.mem, x, s1.mem[x], b, y);
    ghost var s2 := Adopt(h, x.right, x, s1, b, y);
    if b.Bin? {
      KeepBoth(s1, b.node, s2.mem[b.node], ctx, x, a, x, c, y);
    }
    s := SetParent(h, y, x.parent, s2);
    KeepBoth(s2, y, s.mem[y], ctx, x, a, x, c, y);
    Keep(s2.mem, y, s.mem[y], b, x);
  }

  method PassRight(h: Head, x: Elem, y: Elem, ghost s0: Store, ghost ctx: Ctx, ghost a: Tree, ghost b: Tree,
      ghost c: Tree)
    returns (ghost s: Store)
    requires Holds(h, s0) && Apart(ctx, x, y, a, b, c)
    requires x in s0.mem && y in s0.mem && s0.mem[x].parent == Parent(ctx) && s0.mem[y].right == Root(b)
    requires RepCtx(s0, ctx, x) && Rep(s0.mem, a, x) && Rep(s0.mem, b, y) && Rep(s0.mem, c, y)
    modifies x`left, y`parent, Opt(y.right)`parent
    ensures Holds(h, s) && s.mem.Keys == s0.mem.Keys
    ensures s.mem[x] == s0.mem[x].(left := Root(b)) && s.mem[y] == s0.mem[y].(parent := Parent(ctx))
    ensures RepCtx(s, ctx, x) && Rep(s.mem, a, x) && Rep(s.mem, b, x) && Rep(s.mem, c, y)
  {
    hide Rep, RepCtx;
    ghost var s1 := SetLeft(h, x, y.right, s0);
    KeepBoth(s0, x, s1.mem[x], ctx, x, a, x, c, y);
    Keep(s0.mem, x, s1.mem[x], b, y);
    ghost var s2 := Adopt(h, x.left, x, s1, b, y);
    if b.Bin? {
      KeepBoth(s1, b.node, s2.mem[b.node], ctx, x, a, x, c, y);
    }
    s := SetParent(h, y, x.parent, s2);
    KeepBoth(s2, y, s.mem[y], ctx, x, a, x, c, y);
    Keep(s2.mem, y, s.mem[y], b, x);
  }

  /** The tree `t` sits in the hole, the node `y` with its subtree `c` stands beside; nothing is shared. */
  ghost predicate Beside(ctx: Ctx, t: Tree, y: Elem, c: Tree) {
    && t.Bin? && y !in Nodes(t) && y !in Nodes(c) && y !in CtxNodes(ctx)
    && Nodes(t) !! Nodes(c) && Nodes(t) !! CtxNodes(ctx) && Nodes(c) !! CtxNodes(ctx)
  }

  /** `y` takes the place of `x`, which becomes its left child. */
  method HangLeft(h: Head, x: Elem, y: Elem, ghost s0: Store, ghost ctx: Ctx, ghost t: Tree, ghost c: Tree)
    returns (ghost s: Store)
    requires Holds(h, s0) && Beside(ctx, t, y, c) && x == t.node
    requires y in s0.mem && s0.mem[y].parent == Parent(ctx) && s0.mem[y].right == Root(c)
    requires RepCtx(s0, ctx, x) && Rep(s0.mem, t, Parent(ctx)) && Rep(s0.mem, c, y)
    modifies h`root, x`parent, y`left, Opt(y.parent)`left, Opt(y.parent)`right
    ensures Holds(h, s) && s.mem.Keys == s0.mem.Keys
    ensures Zip(s, ctx, Bin(t, y, s0.mem[y].color, c))
  {
    ghost var p := Parent(ctx);
    ghost var s1 := Relink(h, y.parent, x, y, s0, ctx);
    if p != null {
      Keep(s0.mem, p, s1.mem[p], t, p);
      Keep(s0.mem, p, s1.mem[p], c, y);
    }
    ghost var s2 := SetLeft(h, y, x, s1);
    KeepBoth(s1, y, s2.mem[y], ctx, y, t, p, c, y);
    s := Adopt(h, x, y, s2, t, p);
    KeepBoth(s2, x, s.mem[x], ctx, y, c, y, c, y);
    Join(s.mem, t, y, s.mem[y].color, c, p);
  }

  method HangRight(h: Head, x: Elem, y: Elem, ghost s0: Store, ghost ctx: Ctx, ghost t: Tree, ghost c: Tree)
    returns (ghost s: Store)
    requires Holds(h, s0) && Beside(ctx, t, y, c) && x == t.node
    requires y in s0.mem && s0.mem[y].parent == Parent(ctx) && s0.mem[y].left == Root(c)
    requires RepCtx(s0, ctx, x) && Rep(s0.mem, t, Parent(ctx)) && Rep(s0.mem, c, y)
    modifies h`root, x`parent, y`right, Opt(y.parent)`left, Opt(y.parent)`right
    ensures Holds(h, s) && s.mem.Keys == s0.mem.Keys
    ensures Zip(s, ctx, Bin(c, y, s0.mem[y].color, t))
  {
    ghost var p := Parent(ctx);
    ghost var s1 := Relink(h, y.parent, x, y, s0, ctx);
    if p != null {
      Keep(s0.mem, p, s1.mem[p], t, p);
      Keep(s0.mem, p, s1.mem[p], c, y);
    }
    ghost var s2 := SetRight(h, y, x, s1);
    KeepBoth(s1, y, s2.mem[y], ctx, y, t, p, c, y);
    s := Adopt(h, x, y, s2, t, p);
    KeepBoth(s2, x, s.mem[x], ctx, y, c, y, c, y);
    Join(s.mem, c, y, s.mem[y].color, t, p);
  }

  method RotateLeft(h: Head, elm: Elem, ghost s0: Store, ghost ctx: Ctx, ghost t: Tree)
    returns (tmp: Elem, ghost s: Store)
    requires Holds(h, s0) && Zip(s0, ctx, t) && t.Bin? && t.node == elm && t.right.Bin?
    modifies h`root, s0.mem.Keys`left, s0.mem.Keys`right, s0.mem.Keys`parent
    ensures Holds(h, s) && s.mem.Keys == s0.mem.Keys
    ensures Zip(s, ctx, RotL(t)) && tmp == t.right.node
    ensures InOrder(RotL(t)) == InOrder(t)
  {
    OpenRight(s0, ctx, t);
    ghost var a, b, c := t.left, t.right.left, t.right.right;
    tmp := elm.right;
    s := PassLeft(h, elm, tmp, s0, ctx, a, b, c);
    Join(s.mem, a, elm, t.color, b, Parent(ctx));
    s := HangLeft(h, elm, tmp, s, ctx, Bin(a, elm, t.color, b), c);
    RotLInOrder(t);
  }

  method RotateRight(h: Head, elm: Elem, ghost s0: Store, ghost ctx: Ctx, ghost t: Tree)
    returns (tmp: Elem, ghost s: Store)
    requires Holds(h, s0) && Zip(s0, ctx, t) && t.Bin? && t.node == elm && t.left.Bin?
    modifies h`root, s0.mem.Keys`left, s0.mem.Keys`right, s0.mem.Keys`parent
    ensures Holds(h, s) && s.mem.Keys == s0.mem.Keys
    ensures Zip(s, ctx, RotR(t)) && tmp == t.left.node
    ensures InOrder(RotR(t)) == InOrder(t)
  {
    OpenLeft(s0, ctx, t);
    ghost var a, b, c := t.right, t.left.right, t.left.left;
    tmp := elm.left;
    s := PassRight(h, elm, tmp, s0, ctx, a, b, c);
    Join(s.mem, b, elm, t.color, a, Parent(ctx));
    s := HangRight(h, elm, tmp, s, ctx, Bin(b, elm, t.color, a), c);
    RotRInOrder(t);
  }
}
