/**
 The heap of a red-black tree. Every field is written through one of the setters below, which keep a
 ghost snapshot of the fields; what the snapshot represents is then a matter of plain mathematics.
 */
module RbStore {
  import opened Order
  import opened Entries
  import opened RbShape

  /** The `RB_ENTRY` fields of one node. */
  datatype Cell = Cell(left: Elem?, right: Elem?, parent: Elem?, color: Color)

  type Mem = map<Elem, Cell>

  /** The head's root link and the fields of a set of nodes. */
  datatype Store = Store(root: Elem?, mem: Mem)

  /** The `RB_HEAD` struct. `store` and `shape` say what the heap holds between two operations. */
  class Head {
    const cmp: Compare
    var root: Elem?
    ghost var store: Store
    ghost var shape: Tree

    /** `RB_INIT`. */
    constructor (cmp: Compare)
      ensures this.cmp == cmp && root == null && shape == Nil && store == Store(null, map[])
    {
      this.cmp := cmp;
      root := null;
      shape := Nil;
      store := Store(null, map[]);
    }
  }

  ghost predicate Holds(h: Head, s: Store)
    reads h`root, s.mem.Keys`left, s.mem.Keys`right, s.mem.Keys`parent, s.mem.Keys`color
  {
    h.root == s.root &&
    forall n :: n in s.mem ==> s.mem[n] == Cell(n.left, n.right, n.parent, n.color)
  }

  ghost function Set(s: Store, n: Elem, e: Cell): Store {
    s.(mem := s.mem[n := e])
  }

  // ---------- the setters ----------

  method SetLeft(h: Head, n: Elem, p: Elem?, ghost s: Store) returns (ghost s': Store)
    requires Holds(h, s) && n in s.mem
    modifies n`left
    ensures Holds(h, s') && s' == Set(s, n, s.mem[n].(left := p))
    ensures s'.mem.Keys == s.mem.Keys
  {
    n.left := p;
    s' := Set(s, n, s.mem[n].(left := p));
  }

  method SetRight(h: Head, n: Elem, p: Elem?, ghost s: Store) returns (ghost s': Store)
    requires Holds(h, s) && n in s.mem
    modifies n`right
    ensures Holds(h, s') && s' == Set(s, n, s.mem[n].(right := p))
    ensures s'.mem.Keys == s.mem.Keys
  {
    n.right := p;
    s' := Set(s, n, s.mem[n].(right := p));
  }

  method SetParent(h: Head, n: Elem, p: Elem?, ghost s: Store) returns (ghost s': Store)
    requires Holds(h, s) && n in s.mem
    modifies n`parent
    ensures Holds(h, s') && s' == Set(s, n, s.mem[n].(parent := p))
    ensures s'.mem.Keys == s.mem.Keys
  {
    n.parent := p;
    s' := Set(s, n, s.mem[n].(parent := p));
  }

  method SetColor(h: Head, n: Elem, c: Color, ghost s: Store) returns (ghost s': Store)
    requires Holds(h, s) && n in s.mem
    modifies n`color
    ensures Holds(h, s') && s' == Set(s, n, s.mem[n].(color := c))
    ensures s'.mem.Keys == s.mem.Keys
  {
    n.color := c;
    s' := Set(s, n, s.mem[n].(color := c));
  }

  method SetRoot(h: Head, n: Elem?, ghost s: Store) returns (ghost s': Store)
    requires Holds(h, s)
    modifies h`root
    ensures Holds(h, s') && s' == s.(root := n)
  {
    h.root := n;
    s' := s.(root := n);
  }

  // ---------- what a store represents ----------

  /** The nodes below the root of `t` are all different and linked and coloured as `t` says; the
      root's parent link is `p`. */
  ghost predicate Rep(m: Mem, t: Tree, p: Elem?) {
    match t
    case Nil => true
    case Bin(l, n, c, r) =>
      && n in m && m[n] == Cell(Root(l), Root(r), p, c)
      && n !in Nodes(l) && n !in Nodes(r) && Nodes(l) !! Nodes(r)
      && Rep(m, l, n) && Rep(m, r, n)
  }

  /** The nodes around the hole of `ctx` are linked as `ctx` says, with `hole` linked into the hole. */
  ghost predicate RepCtx(s: Store, ctx: Ctx, hole: Elem?) {
    match ctx
    case Top => s.root == hole
    case InLeft(up, n, c, r) =>
      && n in s.mem && s.mem[n] == Cell(hole, Root(r), Parent(up), c)
      && n !in Nodes(r) && n !in CtxNodes(up) && Nodes(r) !! CtxNodes(up)
      && Rep(s.mem, r, n) && RepCtx(s, up, n)
    case InRight(up, l, n, c) =>
      && n in s.mem && s.mem[n] == Cell(Root(l), hole, Parent(up), c)
      && n !in Nodes(l) && n !in CtxNodes(up) && Nodes(l) !! CtxNodes(up)
      && Rep(s.mem, l, n) && RepCtx(s, up, n)
  }

  /** The store holds `t` in the hole of `ctx`. */
  ghost predicate Zip(s: Store, ctx: Ctx, t: Tree) {
    && RepCtx(s, ctx, Root(t))
    && Rep(s.mem, t, Parent(ctx))
    && CtxNodes(ctx) !! Nodes(t)
  }

  lemma {:induction false} DownLeft(s: Store, ctx: Ctx, t: Tree)
    requires t.Bin? && Zip(s, ctx, t)
    ensures Zip(s, InLeft(ctx, t.node, t.color, t.right), t.left)
  {
  }

  lemma {:induction false} DownRight(s: Store, ctx: Ctx, t: Tree)
    requires t.Bin? && Zip(s, ctx, t)
    ensures Zip(s, InRight(ctx, t.left, t.node, t.color), t.right)
  {
  }

  lemma {:induction false} Up(s: Store, ctx: Ctx, t: Tree)
    requires !ctx.Top? && Zip(s, ctx, t)
    ensures Zip(s, ctx.up, Grow(ctx, t))
  {
  }

  lemma {:induction false} Across(s: Store, ctx: Ctx, t: Tree)
    requires !ctx.Top? && Zip(s, ctx, t)
    ensures Zip(s, Other(ctx, t), Sibling(ctx))
  {
    Up(s, ctx, t);
    if ctx.InLeft? {
      DownRight(s, ctx.up, Grow(ctx, t));
    } else {
      DownLeft(s, ctx.up, Grow(ctx, t));
    }
  }

  lemma {:induction false} PlugZip(s: Store, ctx: Ctx, t: Tree)
    requires Zip(s, ctx, t)
    ensures Zip(s, Top, Plug(ctx, t))
    decreases ctx
  {
    if ctx.Top? {
    } else {
      Up(s, ctx, t);
      PlugZip(s, ctx.up, Grow(ctx, t));
    }
  }

  /** What the fields of the node at the top of the hole are. */
  lemma {:induction false} Fields(s: Store, ctx: Ctx, t: Tree)
    requires t.Bin? && Zip(s, ctx, t)
    ensures t.node in s.mem && s.mem[t.node] == Cell(Root(t.left), Root(t.right), Parent(ctx), t.color)
  {
  }

  /** What the fields of the hole's parent are. */
  lemma {:induction false} CtxFields(s: Store, ctx: Ctx, hole: Elem?)
    requires RepCtx(s, ctx, hole)
    ensures ctx.Top? ==> s.root == hole
    ensures ctx.InLeft? ==>
      ctx.node in s.mem && s.mem[ctx.node] == Cell(hole, Root(ctx.right), Parent(ctx.up), ctx.color)
    ensures ctx.InRight? ==>
      ctx.node in s.mem && s.mem[ctx.node] == Cell(Root(ctx.left), hole, Parent(ctx.up), ctx.color)
  {
  }

  // ---------- writing to one node leaves the rest alone ----------

  lemma {:induction false} Keep(m: Mem, n: Elem, e: Cell, t: Tree, p: Elem?)
    requires Rep(m, t, p) && n !in Nodes(t)
    ensures Rep(m[n := e], t, p)
  {
    if t.Nil? {
    } else {
      Keep(m, n, e, t.left, t.node);
      Keep(m, n, e, t.right, t.node);
    }
  }

  lemma {:induction false} KeepCtx(s: Store, n: Elem, e: Cell, ctx: Ctx, hole: Elem?)
    requires RepCtx(s, ctx, hole) && n !in CtxNodes(ctx)
    ensures RepCtx(Set(s, n, e), ctx, hole)
  {
    match ctx
    case Top =>
    case InLeft(up, m, _, r) =>
      Keep(s.mem, n, e, r, m);
      KeepCtx(s, n, e, up, m);
    case InRight(up, l, m, _) =>
      Keep(s.mem, n, e, l, m);
      KeepCtx(s, n, e, up, m);
  }

  /** Two trees below a node make a tree. */
  lemma {:induction false} Join(m: Mem, l: Tree, n: Elem, c: Color, r: Tree, p: Elem?)
    requires n in m && m[n] == Cell(Root(l), Root(r), p, c)
    requires Rep(m, l, n) && Rep(m, r, n)
    requires n !in Nodes(l) && n !in Nodes(r) && Nodes(l) !! Nodes(r)
    ensures Rep(m, Bin(l, n, c, r), p)
  {
  }

  ghost function Opt(n: Elem?): set<Elem> {
    if n == null then {} else {n}
  }

  /** Nothing but the fields of `n` differs. */
  ghost predicate OnlyAt(s: Store, s': Store, n: Elem?) {
    && s'.mem.Keys == s.mem.Keys
    && if n == null then s'.mem == s.mem else n in s'.mem && s'.mem == s.mem[n := s'.mem[n]]
  }

  /** The nodes of `m'` are those of `m` and `n`. */
  ghost predicate Adds(m: Mem, m': Mem, n: Elem) {
    && n in m'
    && (forall k <- m.Keys :: k in m')
    && (forall k <- m'.Keys :: k == n || k in m)
  }

  /** `if (n) RB_PARENT(n) = p`. */
  method Adopt(h: Head, n: Elem?, p: Elem?, ghost s: Store, ghost t: Tree, ghost was: Elem?) returns (ghost s': Store)
    requires Holds(h, s) && Rep(s.mem, t, was) && n == Root(t)
    modifies Opt(n)`parent
    ensures Holds(h, s') && s'.root == s.root && OnlyAt(s, s', n)
    ensures Rep(s'.mem, t, p)
  {
    if n != null {
      s' := SetParent(h, n, p, s);
      Keep(s.mem, n, s'.mem[n], t.left, n);
      Keep(s.mem, n, s'.mem[n], t.right, n);
    } else {
      s' := s;
    }
  }

  /** Makes the link that leads to `x`, in its parent `p` or in the head, lead to `y` instead. */
  method Relink(h: Head, p: Elem?, x: Elem, y: Elem?, ghost s: Store, ghost ctx: Ctx) returns (ghost s': Store)
    requires Holds(h, s) && RepCtx(s, ctx, x) && x !in CtxNodes(ctx) && p == Parent(ctx)
    modifies h`root, Opt(p)`left, Opt(p)`right
    ensures Holds(h, s') && OnlyAt(s, s', p)
    ensures RepCtx(s', ctx, y)
  {
    if p != null {
      if p.left == x {
        s' := SetLeft(h, p, y, s);
      } else {
        s' := SetRight(h, p, y, s);
      }
      KeepCtx(s, p, s'.mem[p], ctx.up, p);
      Keep(s.mem, p, s'.mem[p], if ctx.InLeft? then ctx.right else ctx.left, p);
    } else {
      s' := SetRoot(h, y, s);
    }
  }

  /** `RB_COLOR(n) = c` for the node at the top of the hole. */
  method Paint(h: Head, n: Elem, c: Color, ghost s: Store, ghost ctx: Ctx, ghost t: Tree) returns (ghost s': Store)
    requires Holds(h, s) && Zip(s, ctx, t) && t.Bin? && n == t.node
    modifies n`color
    ensures Holds(h, s') && s'.mem.Keys == s.mem.Keys
    ensures Zip(s', ctx, t.(color := c))
  {
    s' := SetColor(h, n, c, s);
    KeepCtx(s, n, s'.mem[n], ctx, n);
    Keep(s.mem, n, s'.mem[n], t.left, n);
    Keep(s.mem, n, s'.mem[n], t.right, n);
  }
}
