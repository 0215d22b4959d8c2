/**
 Red-black tree nodes (`RB_ENTRY`) and the mathematical shapes that describe how they are linked.

 A `Tree` says which node sits where and with which colour. A `Ctx` is a tree with one subtree cut
 out, written from the hole upwards: walking down a tree grows the context, climbing shrinks it.
 */
module RbShape {
  import opened Entries

  datatype Tree = Nil | Bin(left: Tree, node: Elem, color: Color, right: Tree)

  datatype Ctx =
    | Top
    | InLeft(up: Ctx, node: Elem, color: Color, right: Tree)
    | InRight(up: Ctx, left: Tree, node: Elem, color: Color)

  ghost function Root(t: Tree): (r: Elem?)
    ensures r == null <==> t.Nil?
    ensures r != null ==> r in Nodes(t)
  {
    if t.Nil? then null else t.node
  }

  ghost function Parent(ctx: Ctx): (p: Elem?)
    ensures p == null <==> ctx.Top?
    ensures p != null ==> p in CtxNodes(ctx)
  {
    if ctx.Top? then null else ctx.node
  }

  ghost function Nodes(t: Tree): set<Elem> {
    match t
    case Nil => {}
    case Bin(l, n, _, r) => Nodes(l) + {n} + Nodes(r)
  }

  ghost function CtxNodes(ctx: Ctx): set<Elem> {
    match ctx
    case Top => {}
    case InLeft(up, n, _, r) => CtxNodes(up) + {n} + Nodes(r)
    case InRight(up, l, n, _) => CtxNodes(up) + {n} + Nodes(l)
  }

  ghost function Depth(ctx: Ctx): nat {
    if ctx.Top? then 0 else 1 + Depth(ctx.up)
  }

  ghost function Height(t: Tree): nat {
    match t
    case Nil => 0
    case Bin(l, _, _, r) => 1 + if Height(l) < Height(r) then Height(r) else Height(l)
  }

  // ---------- symmetric order ----------

  ghost function InOrder(t: Tree): seq<Elem> {
    match t
    case Nil => []
    case Bin(l, n, _, r) => InOrder(l) + [n] + InOrder(r)
  }

  /** The nodes that come before the hole. */
  ghost function Before(ctx: Ctx): seq<Elem> {
    match ctx
    case Top => []
    case InLeft(up, _, _, _) => Before(up)
    case InRight(up, l, n, _) => Before(up) + InOrder(l) + [n]
  }

  /** The nodes that come after the hole. */
  ghost function After(ctx: Ctx): seq<Elem> {
    match ctx
    case Top => []
    case InLeft(up, n, _, r) => [n] + (InOrder(r) + After(up))
    case InRight(up, _, _, _) => After(up)
  }

  /** The whole tree in symmetric order, when `t` fills the hole of `ctx`. */
  ghost function Flat(ctx: Ctx, t: Tree): seq<Elem> {
    Before(ctx) + InOrder(t) + After(ctx)
  }

  /** The tree one level up from the hole. */
  ghost function Grow(ctx: Ctx, t: Tree): Tree
    requires !ctx.Top?
  {
    if ctx.InLeft? then Bin(t, ctx.node, ctx.color, ctx.right) else Bin(ctx.left, ctx.node, ctx.color, t)
  }

  ghost function Sibling(ctx: Ctx): Tree
    requires !ctx.Top?
  {
    if ctx.InLeft? then ctx.right else ctx.left
  }

  /** The hole moves from `t` across to its sibling. */
  ghost function Other(ctx: Ctx, t: Tree): Ctx
    requires !ctx.Top?
  {
    if ctx.InLeft? then InRight(ctx.up, t, ctx.node, ctx.color) else InLeft(ctx.up, ctx.node, ctx.color, t)
  }

  /** The whole tree. */
  ghost function Plug(ctx: Ctx, t: Tree): Tree {
    if ctx.Top? then t else Plug(ctx.up, Grow(ctx, t))
  }

  lemma {:induction false} FlatUp(ctx: Ctx, t: Tree)
    requires !ctx.Top?
    ensures Flat(ctx, t) == Flat(ctx.up, Grow(ctx, t))
  {
  }

  lemma {:induction false} FlatTop(t: Tree)
    ensures Flat(Top, t) == InOrder(t)
  {
  }

  lemma {:induction false} FlatNil(ctx: Ctx)
    ensures Flat(ctx, Nil) == Before(ctx) + After(ctx)
    ensures Before(ctx) == [] ==> Flat(ctx, Nil) == After(ctx)
    ensures After(ctx) == [] ==> Flat(ctx, Nil) == Before(ctx)
  {
  }

  /** The node sequence of the whole tree is what lies before, in and after the hole. */
  lemma {:induction false} PlugInOrder(ctx: Ctx, t: Tree)
    ensures InOrder(Plug(ctx, t)) == Flat(ctx, t)
    decreases ctx
  {
    if ctx.Top? {
    } else {
      FlatUp(ctx, t);
      PlugInOrder(ctx.up, Grow(ctx, t));
    }
  }

  lemma {:induction false} NodesInOrder(t: Tree)
    ensures forall n :: n in Nodes(t) <==> n in InOrder(t)
  {
    if t.Nil? {
    } else {
      NodesInOrder(t.left);
      NodesInOrder(t.right);
    }
  }

  lemma {:induction false} CtxNodesFlat(ctx: Ctx)
    ensures forall n :: n in CtxNodes(ctx) <==> n in Before(ctx) || n in After(ctx)
  {
    match ctx
    case Top =>
    case InLeft(up, _, _, r) =>
      CtxNodesFlat(up);
      NodesInOrder(r);
    case InRight(up, l, _, _) =>
      CtxNodesFlat(up);
      NodesInOrder(l);
  }

  // ---------- rotation ----------

  ghost function RotL(t: Tree): Tree
    requires t.Bin? && t.right.Bin?
  {
    Bin(Bin(t.left, t.node, t.color, t.right.left), t.right.node, t.right.color, t.right.right)
  }

  ghost function RotR(t: Tree): Tree
    requires t.Bin? && t.left.Bin?
  {
    Bin(t.left.left, t.left.node, t.left.color, Bin(t.left.right, t.node, t.color, t.right))
  }

  lemma {:induction false} RotLInOrder(t: Tree)
    requires t.Bin? && t.right.Bin?
    ensures InOrder(RotL(t)) == InOrder(t)
  {
    var a, b, c := InOrder(t.left), InOrder(t.right.left), InOrder(t.right.right);
    assert InOrder(RotL(t).left) == a + [t.node] + b;
    assert InOrder(t.right) == b + [t.right.node] + c;
    assert (a + [t.node] + b) + [t.right.node] + c == a + [t.node] + (b + [t.right.node] + c);
  }

  lemma {:induction false} RotRInOrder(t: Tree)
    requires t.Bin? && t.left.Bin?
    ensures InOrder(RotR(t)) == InOrder(t)
  {
    RotLInOrder(RotR(t));
  }
}
