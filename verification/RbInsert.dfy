/** `RB_INSERT` and `RB_INSERT_COLOR`. */
module RbInsert {
  import opened Order
  import opened Entries
  import opened RbShape
  import opened RbBalance
  import opened RbStore
  import opened RbRotate
  import opened RbTree
  import opened RbSearch

  // ---------- the shapes the fix-up goes through ----------

  /** `elm`, at the top of `t`, is red. If its parent is red too there is a black grandparent. */
  ghost predicate RedTop(ctx: Ctx, t: Tree, b: nat) {
    CtxRB(ctx, b) && RB(t, b) && IsRed(t)
  }

  /** Red uncle: the conflict moves to the grandparent. */
  lemma {:induction false} RecolorOk(ctx: Ctx, t: Tree, b: nat)
    requires RedTop(ctx, t, b) && CtxRed(ctx) && IsRed(Sibling(ctx.up))
    ensures var up := ctx.up; var u, p := Blacken(Sibling(up)), Blacken(Grow(ctx, t));
      var t' := if up.InLeft? then Bin(p, up.node, Red, u) else Bin(u, up.node, Red, p);
      RedTop(up.up, t', b + 1) && Flat(up.up, t') == Flat(ctx, t)
  {
    var u, p := Sibling(ctx.up), Grow(ctx, t);
    assert CtxRB(ctx.up, b);
    FlatUp(ctx, t);
    FlatUp(ctx.up, p);
    assert InOrder(Blacken(u)) == InOrder(u);
    assert InOrder(Blacken(p)) == InOrder(p);
  }

  /** Black uncle on the right, `elm` a left child: one rotation at the grandparent ends the conflict. */
  lemma {:induction false} OuterLeftOk(ctx: Ctx, t: Tree, b: nat)
    requires RedTop(ctx, t, b) && CtxRed(ctx) && ctx.InLeft? && ctx.up.InLeft? && !IsRed(ctx.up.right)
    ensures var up := ctx.up;
      var s := Bin(ctx.right, up.node, Red, up.right);
      var ctx' := InLeft(up.up, ctx.node, Black, s);
      && RotR(Bin(Bin(t, ctx.node, Black, ctx.right), up.node, Red, up.right)) == Grow(ctx', t)
      && RedTop(ctx', t, b) && Flat(ctx', t) == Flat(ctx, t)
  {
    var up := ctx.up;
    var s := Bin(ctx.right, up.node, Red, up.right);
    var ctx' := InLeft(up.up, ctx.node, Black, s);
    FlatUp(ctx, t);
    FlatUp(up, Grow(ctx, t));
    FlatUp(ctx', t);
    assert CtxRB(up, b);
    RotRInOrder(Grow(up, Grow(ctx, t)));
    assert InOrder(Grow(ctx', t)) == InOrder(RotR(Grow(up, Grow(ctx, t))));
  }

  lemma {:induction false} OuterRightOk(ctx: Ctx, t: Tree, b: nat)
    requires RedTop(ctx, t, b) && CtxRed(ctx) && ctx.InRight? && ctx.up.InRight? && !IsRed(ctx.up.left)
    ensures var up := ctx.up;
      var s := Bin(up.left, up.node, Red, ctx.left);
      var ctx' := InRight(up.up, s, ctx.node, Black);
      && RotL(Bin(up.left, up.node, Red, Bin(ctx.left, ctx.node, Black, t))) == Grow(ctx', t)
      && RedTop(ctx', t, b) && Flat(ctx', t) == Flat(ctx, t)
  {
    var up := ctx.up;
    var s := Bin(up.left, up.node, Red, ctx.left);
    var ctx' := InRight(up.up, s, ctx.node, Black);
    FlatUp(ctx, t);
    FlatUp(up, Grow(ctx, t));
    FlatUp(ctx', t);
    assert CtxRB(up, b);
    RotLInOrder(Grow(up, Grow(ctx, t)));
    assert InOrder(Grow(ctx', t)) == InOrder(RotL(Grow(up, Grow(ctx, t))));
  }

  /** `elm` a right child of a left child: rotating at the parent turns it into the outer case, with
      the parent as the new `elm`. */
  lemma {:induction false} InnerLeftOk(ctx: Ctx, t: Tree, b: nat)
    requires RedTop(ctx, t, b) && CtxRed(ctx) && ctx.InRight? && ctx.up.InLeft?
    ensures var ctx', t' := InLeft(ctx.up, t.node, Red, t.right), Bin(ctx.left, ctx.node, Red, t.left);
      && RotL(Grow(ctx, t)) == Grow(ctx', t')
      && RedTop(ctx', t', b) && Flat(ctx', t') == Flat(ctx, t)
  {
    var ctx', t' := InLeft(ctx.up, t.node, Red, t.right), Bin(ctx.left, ctx.node, Red, t.left);
    FlatUp(ctx, t);
    FlatUp(ctx', t');
    RotLInOrder(Grow(ctx, t));
  }

  lemma {:induction false} InnerRightOk(ctx: Ctx, t: Tree, b: nat)
    requires RedTop(ctx, t, b) && CtxRed(ctx) && ctx.InLeft? && ctx.up.InRight?
    ensures var ctx', t' := InRight(ctx.up, t.left, t.node, Red), Bin(t.right, ctx.node, Red, ctx.right);
      && RotR(Grow(ctx, t)) == Grow(ctx', t')
      && RedTop(ctx', t', b) && Flat(ctx', t') == Flat(ctx, t)
  {
    var ctx', t' := InRight(ctx.up, t.left, t.node, Red), Bin(t.right, ctx.node, Red, ctx.right);
    FlatUp(ctx, t);
    FlatUp(ctx', t');
    RotRInOrder(Grow(ctx, t));
  }

  /** The three writes of the red uncle case. */
  method Recolor(h: Head, tmp: Elem, parent: Elem, gparent: Elem, ghost s0: Store, ghost ctx: Ctx, ghost t: Tree)
    returns (ghost s: Store)
    requires Holds(h, s0) && Zip(s0, ctx, t) && !ctx.Top? && !ctx.up.Top? && Sibling(ctx.up).Bin?
    requires parent == ctx.node && gparent == ctx.up.node && tmp == Sibling(ctx.up).node
    modifies s0.mem.Keys`color
    ensures Holds(h, s) && s.mem.Keys == s0.mem.Keys
    ensures var up := ctx.up; var u, p := Blacken(Sibling(up)), Blacken(Grow(ctx, t));
      Zip(s, up.up, if up.InLeft? then Bin(p, up.node, Red, u) else Bin(u, up.node, Red, p))
  {
    ghost var up, p, u := ctx.up, Grow(ctx, t), Sibling(ctx.up);
    Up(s0, ctx, t);
    Across(s0, up, p);
    Fields(s0, Other(up, p), u);
    s := Paint(h, tmp, Black, s0, Other(up, p), u);
    Across(s, Other(up, p), Blacken(u));
    up := Other(Other(up, p), Blacken(u));
    Fields(s, up, p);
    s := Paint(h, parent, Black, s, up, p);
    Up(s, up, Blacken(p));
    Fields(s, up.up, Grow(up, Blacken(p)));
    s := Paint(h, gparent, Red, s, up.up, Grow(up, Blacken(p)));
  }

  /** `RB_SET_BLACKRED(parent, gparent)`. */
  method SetBlackRed(h: Head, parent: Elem, gparent: Elem, ghost s0: Store, ghost ctx: Ctx, ghost t: Tree)
    returns (ghost s: Store)
    requires Holds(h, s0) && Zip(s0, ctx, t) && !ctx.Top? && !ctx.up.Top?
    requires parent == ctx.node && gparent == ctx.up.node
    modifies s0.mem.Keys`color
    ensures Holds(h, s) && s.mem.Keys == s0.mem.Keys
    ensures Zip(s, ctx.up.up, Redden(Grow(ctx.up, Blacken(Grow(ctx, t)))))
  {
    Up(s0, ctx, t);
    Fields(s0, ctx.up, Grow(ctx, t));
    s := Paint(h, parent, Black, s0, ctx.up, Grow(ctx, t));
    Up(s, ctx.up, Blacken(Grow(ctx, t)));
    Fields(s, ctx.up.up, Grow(ctx.up, Blacken(Grow(ctx, t))));
    s := Paint(h, gparent, Red, s, ctx.up.up, Grow(ctx.up, Blacken(Grow(ctx, t))));
  }

  /** The black uncle case when the parent is a left child. */
  method TurnFromLeft(h: Head, elm0: Elem, parent0: Elem, gparent: Elem, ghost s0: Store, ghost ctx0: Ctx,
      ghost t0: Tree, ghost b: nat)
    returns (elm: Elem, ghost s: Store, ghost ctx: Ctx, ghost t: Tree, ghost rotations: nat)
    requires Holds(h, s0) && Zip(s0, ctx0, t0) && RedTop(ctx0, t0, b) && CtxRed(ctx0)
    requires ctx0.up.InLeft? && !IsRed(ctx0.up.right)
    requires elm0 == t0.node && parent0 == ctx0.node && gparent == ctx0.up.node
    modifies h`root, s0.mem.Keys`left, s0.mem.Keys`right, s0.mem.Keys`parent, s0.mem.Keys`color
    ensures Holds(h, s) && s.mem.Keys == s0.mem.Keys
    ensures Zip(s, ctx, t) && RedTop(ctx, t, b) && elm == t.node && Flat(ctx, t) == Flat(ctx0, t0)
    ensures !CtxRed(ctx) && Depth(ctx) < Depth(ctx0) && rotations <= 2
  {
    hide Rep, RepCtx;
    var parent, tmp;
    elm, parent, s, ctx, t, rotations := elm0, parent0, s0, ctx0, t0, 0;
    CtxFields(s, ctx, elm);
    if parent.right == elm {
      InnerLeftOk(ctx, t, b);
      Up(s, ctx, t);
      tmp, s := RotateLeft(h, parent, s, ctx.up, Grow(ctx, t));
      rotations := rotations + 1;
      DownLeft(s, ctx.up, RotL(Grow(ctx, t)));
      ctx, t := InLeft(ctx.up, t.node, Red, t.right), Bin(ctx.left, ctx.node, Red, t.left);
      tmp := parent;
      parent := elm;
      elm := tmp;
    }
    OuterLeftOk(ctx, t, b);
    s := SetBlackRed(h, parent, gparent, s, ctx, t);
    ghost var g := Bin(Bin(t, ctx.node, Black, ctx.right), gparent, Red, ctx.up.right);
    tmp, s := RotateRight(h, gparent, s, ctx.up.up, g);
    rotations := rotations + 1;
    DownLeft(s, ctx.up.up, RotR(g));
    ctx := InLeft(ctx.up.up, ctx.node, Black, Bin(ctx.right, gparent, Red, ctx.up.right));
  }

  /** The black uncle case when the parent is a right child. */
  method TurnFromRight(h: Head, elm0: Elem, parent0: Elem, gparent: Elem, ghost s0: Store, ghost ctx0: Ctx,
      ghost t0: Tree, ghost b: nat)
    returns (elm: Elem, ghost s: Store, ghost ctx: Ctx, ghost t: Tree, ghost rotations: nat)
    requires Holds(h, s0) && Zip(s0, ctx0, t0) && RedTop(ctx0, t0, b) && CtxRed(ctx0)
    requires ctx0.up.InRight? && !IsRed(ctx0.up.left)
    requires elm0 == t0.node && parent0 == ctx0.node && gparent == ctx0.up.node
    modifies h`root, s0.mem.Keys`left, s0.mem.Keys`right, s0.mem.Keys`parent, s0.mem.Keys`color
    ensures Holds(h, s) && s.mem.Keys == s0.mem.Keys
    ensures Zip(s, ctx, t) && RedTop(ctx, t, b) && elm == t.node && Flat(ctx, t) == Flat(ctx0, t0)
    ensures !CtxRed(ctx) && Depth(ctx) < Depth(ctx0) && rotations <= 2
  {
    hide Rep, RepCtx;
    var parent, tmp;
    elm, parent, s, ctx, t, rotations := elm0, parent0, s0, ctx0, t0, 0;
    CtxFields(s, ctx, elm);
    if parent.left == elm {
      InnerRightOk(ctx, t, b);
      Up(s, ctx, t);
      tmp, s := RotateRight(h, parent, s, ctx.up, Grow(ctx, t));
      rotations := rotations + 1;
      DownRight(s, ctx.up, RotR(Grow(ctx, t)));
      ctx, t := InRight(ctx.up, t.left, t.node, Red), Bin(t.right, ctx.node, Red, ctx.right);
      tmp := parent;
      parent := elm;
      elm := tmp;
    }
    OuterRightOk(ctx, t, b);
    s := SetBlackRed(h, parent, gparent, s, ctx, t);
    ghost var g := Bin(ctx.up.left, gparent, Red, Bin(ctx.left, ctx.node, Black, t));
    tmp, s := RotateLeft(h, gparent, s, ctx.up.up, g);
    rotations := rotations + 1;
    DownRight(s, ctx.up.up, RotL(g));
    ctx := InRight(ctx.up.up, Bin(ctx.up.left, gparent, Red, ctx.left), ctx.node, Black);
  }

  /** What the loop reads, in terms of the context. */
  lemma {:induction false} Guard(s: Store, ctx: Ctx, t: Tree)
    requires Zip(s, ctx, t) && t.Bin?
    ensures t.node in s.mem && s.mem[t.node].parent == Parent(ctx)
    ensures !ctx.Top? ==>
      ctx.node in s.mem && s.mem[ctx.node].color == ctx.color && s.mem[ctx.node].parent == Parent(ctx.up)
  {
    Fields(s, ctx, t);
    if !ctx.Top? {
      Up(s, ctx, t);
      Fields(s, ctx.up, Grow(ctx, t));
    }
  }

  lemma {:induction false} Uncle(s: Store, ctx: Ctx, t: Tree)
    requires Zip(s, ctx, t) && !ctx.Top? && !ctx.up.Top?
    ensures ctx.up.node in s.mem
    ensures s.mem[ctx.up.node].left == ctx.node <==> ctx.up.InLeft?
    ensures (if ctx.up.InLeft? then s.mem[ctx.up.node].right else s.mem[ctx.up.node].left) == Root(Sibling(ctx.up))
    ensures Sibling(ctx.up).Bin? ==>
      Sibling(ctx.up).node in s.mem && s.mem[Sibling(ctx.up).node].color == Sibling(ctx.up).color
  {
    Up(s, ctx, t);
    CtxFields(s, ctx.up, ctx.node);
    Across(s, ctx.up, Grow(ctx, t));
    if Sibling(ctx.up).Bin? {
      Fields(s, Other(ctx.up, Grow(ctx, t)), Sibling(ctx.up));
    }
  }

  /** One round of the loop when the parent is a left child. */
  method FixLeft(h: Head, elm0: Elem, parent: Elem, gparent: Elem, ghost s0: Store, ghost ctx0: Ctx, ghost t0: Tree,
      ghost b0: nat)
    returns (elm: Elem, ghost s: Store, ghost ctx: Ctx, ghost t: Tree, ghost b: nat, ghost rotations: nat)
    requires Holds(h, s0) && Zip(s0, ctx0, t0) && RedTop(ctx0, t0, b0) && CtxRed(ctx0) && ctx0.up.InLeft?
    requires elm0 == t0.node && parent == ctx0.node && gparent == ctx0.up.node
    modifies h`root, s0.mem.Keys`left, s0.mem.Keys`right, s0.mem.Keys`parent, s0.mem.Keys`color
    ensures Holds(h, s) && s.mem.Keys == s0.mem.Keys
    ensures Zip(s, ctx, t) && RedTop(ctx, t, b) && elm == t.node && Flat(ctx, t) == Flat(ctx0, t0)
    ensures Depth(ctx) < Depth(ctx0) && (rotations == 0 || (!CtxRed(ctx) && rotations <= 2))
  {
    Uncle(s0, ctx0, t0);
    var tmp := gparent.right;
    if tmp != null && tmp.color == Red {
      RecolorOk(ctx0, t0, b0);
      s := Recolor(h, tmp, parent, gparent, s0, ctx0, t0);
      ctx, t := ctx0.up.up, Bin(Blacken(Grow(ctx0, t0)), gparent, Red, Blacken(ctx0.up.right));
      elm, b, rotations := gparent, b0 + 1, 0;
    } else {
      b := b0;
      elm, s, ctx, t, rotations := TurnFromLeft(h, elm0, parent, gparent, s0, ctx0, t0, b);
    }
  }

  /** One round of the loop when the parent is a right child. */
  method FixRight(h: Head, elm0: Elem, parent: Elem, gparent: Elem, ghost s0: Store, ghost ctx0: Ctx, ghost t0: Tree,
      ghost b0: nat)
    returns (elm: Elem, ghost s: Store, ghost ctx: Ctx, ghost t: Tree, ghost b: nat, ghost rotations: nat)
    requires Holds(h, s0) && Zip(s0, ctx0, t0) && RedTop(ctx0, t0, b0) && CtxRed(ctx0) && ctx0.up.InRight?
    requires elm0 == t0.node && parent == ctx0.node && gparent == ctx0.up.node
    modifies h`root, s0.mem.Keys`left, s0.mem.Keys`right, s0.mem.Keys`parent, s0.mem.Keys`color
    ensures Holds(h, s) && s.mem.Keys == s0.mem.Keys
    ensures Zip(s, ctx, t) && RedTop(ctx, t, b) && elm == t.node && Flat(ctx, t) == Flat(ctx0, t0)
    ensures Depth(ctx) < Depth(ctx0) && (rotations == 0 || (!CtxRed(ctx) && rotations <= 2))
  {
    Uncle(s0, ctx0, t0);
    var tmp := gparent.left;
    if tmp != null && tmp.color == Red {
      RecolorOk(ctx0, t0, b0);
      s := Recolor(h, tmp, parent, gparent, s0, ctx0, t0);
      ctx, t := ctx0.up.up, Bin(Blacken(ctx0.up.left), gparent, Red, Blacken(Grow(ctx0, t0)));
      elm, b, rotations := gparent, b0 + 1, 0;
    } else {
      b := b0;
      elm, s, ctx, t, rotations := TurnFromRight(h, elm0, parent, gparent, s0, ctx0, t0, b);
    }
  }

  /** `RB_COLOR(head->rbh_root) = RB_BLACK`. */
  method BlackenRoot(h: Head, ghost s0: Store, ghost ctx: Ctx, ghost t: Tree, ghost b: nat)
    returns (ghost s: Store, ghost shape: Tree)
    requires Holds(h, s0) && Zip(s0, ctx, t) && Fits(ctx, t, b) && t.Bin?
    modifies s0.mem.Keys`color
    ensures Holds(h, s) && s.mem.Keys == s0.mem.Keys
    ensures Zip(s, Top, shape) && RedBlack(shape) && InOrder(shape) == Flat(ctx, t)
  {
    PlugFits(ctx, t, b);
    PlugZip(s0, ctx, t);
    PlugInOrder(ctx, t);
    shape := Plug(ctx, t);
    assert shape.Bin? by {
      assert t.node in InOrder(t);
      assert t.node in Flat(ctx, t);
    }
    Fields(s0, Top, shape);
    s := Paint(h, h.root, Black, s0, Top, shape);
    shape := Blacken(shape);
  }

  /** One round of the loop. */
  method Fix(h: Head, elm0: Elem, ghost s0: Store, ghost ctx0: Ctx, ghost t0: Tree, ghost b0: nat)
    returns (elm: Elem, ghost s: Store, ghost ctx: Ctx, ghost t: Tree, ghost b: nat, ghost rotations: nat)
    requires Holds(h, s0) && Zip(s0, ctx0, t0) && RedTop(ctx0, t0, b0) && CtxRed(ctx0) && elm0 == t0.node
    modifies h`root, s0.mem.Keys`left, s0.mem.Keys`right, s0.mem.Keys`parent, s0.mem.Keys`color
    ensures Holds(h, s) && s.mem.Keys == s0.mem.Keys
    ensures Zip(s, ctx, t) && RedTop(ctx, t, b) && elm == t.node && Flat(ctx, t) == Flat(ctx0, t0)
    ensures Depth(ctx) < Depth(ctx0) && (rotations == 0 || (!CtxRed(ctx) && rotations <= 2))
  {
    Guard(s0, ctx0, t0);
    Uncle(s0, ctx0, t0);
    var parent := elm0.parent;
    var gparent := parent.parent;
    if parent == gparent.left {
      elm, s, ctx, t, b, rotations := FixLeft(h, elm0, parent, gparent, s0, ctx0, t0, b0);
    } else {
      elm, s, ctx, t, b, rotations := FixRight(h, elm0, parent, gparent, s0, ctx0, t0, b0);
    }
  }

  /** `RB_INSERT_COLOR`: at most two rotations, after which the loop ends. */
  method InsertColor(h: Head, elm0: Elem, ghost s0: Store, ghost ctx0: Ctx, ghost t0: Tree, ghost b0: nat)
    returns (ghost s: Store, ghost shape: Tree, ghost rotations: nat, ghost rounds: nat)
    requires Holds(h, s0) && Zip(s0, ctx0, t0) && RedTop(ctx0, t0, b0) && elm0 == t0.node
    modifies h`root, s0.mem.Keys`left, s0.mem.Keys`right, s0.mem.Keys`parent, s0.mem.Keys`color
    ensures Holds(h, s) && s.mem.Keys == s0.mem.Keys
    ensures Zip(s, Top, shape) && RedBlack(shape) && InOrder(shape) == Flat(ctx0, t0)
    ensures rotations <= 2 && rounds <= Depth(ctx0)
  {
    var elm := elm0;
    ghost var ctx, t, b, more := ctx0, t0, b0, 0;
    s, rotations, rounds := s0, 0, 0;
    Guard(s, ctx, t);
    while elm.parent != null && elm.parent.color == Red
      invariant Holds(h, s) && s.mem.Keys == s0.mem.Keys
      invariant Zip(s, ctx, t) && RedTop(ctx, t, b) && elm == t.node
      invariant Flat(ctx, t) == Flat(ctx0, t0)
      invariant rotations == 0 || (!CtxRed(ctx) && rotations <= 2)
      invariant rounds + Depth(ctx) <= Depth(ctx0)
      decreases Depth(ctx)
    {
      Guard(s, ctx, t);
      elm, s, ctx, t, b, more := Fix(h, elm, s, ctx, t, b);
      rotations, rounds := rotations + more, rounds + 1;
      Guard(s, ctx, t);
    }
    Guard(s, ctx, t);
    s, shape := BlackenRoot(h, s, ctx, t, b);
  }

  /** The parent's link on the side `less`, or the root link, is set to `elm`. */
  method Link(h: Head, elm: Elem, parent: Elem?, less: bool, ghost s0: Store, ghost ctx: Ctx) returns (ghost s: Store)
    requires Holds(h, s0) && RepCtx(s0, ctx, null) && elm !in CtxNodes(ctx)
    requires parent == Parent(ctx) && (parent != null ==> (less <==> ctx.InLeft?))
    modifies h`root, Opt(parent)`left, Opt(parent)`right
    ensures Holds(h, s) && OnlyAt(s0, s, parent) && RepCtx(s, ctx, elm)
  {
    if parent != null {
      if less {
        s := SetLeft(h, parent, elm, s0);
      } else {
        s := SetRight(h, parent, elm, s0);
      }
      KeepCtx(s0, parent, s.mem[parent], ctx.up, parent);
      Keep(s0.mem, parent, s.mem[parent], Sibling(ctx), parent);
    } else {
      s := SetRoot(h, elm, s0);
    }
  }

  /** `RB_SET(elm, parent)` and the link from the parent: `elm` becomes a red leaf in the empty hole. */
  method Attach(h: Head, elm: Elem, parent: Elem?, less: bool, ghost s0: Store, ghost ctx: Ctx) returns (ghost s: Store)
    requires Holds(h, s0) && RepCtx(s0, ctx, null) && elm !in s0.mem && elm !in CtxNodes(ctx)
    requires parent == Parent(ctx) && (parent != null ==> (less <==> ctx.InLeft?))
    modifies h`root, elm`left, elm`right, elm`parent, elm`color
    modifies Opt(parent)`left, Opt(parent)`right
    ensures Holds(h, s) && Adds(s0.mem, s.mem, elm)
    ensures Zip(s, ctx, Bin(Nil, elm, Red, Nil))
  {
    elm.parent := parent;
    elm.left, elm.right := null, null;
    elm.color := Red;
    ghost var s1 := Set(s0, elm, Cell(null, null, parent, Red));
    KeepCtx(s0, elm, s1.mem[elm], ctx, null);
    s := Link(h, elm, parent, less, s1, ctx);
    Leaf(s, ctx, elm);
  }

  lemma {:induction false} Leaf(s: Store, ctx: Ctx, elm: Elem)
    requires RepCtx(s, ctx, elm) && elm !in CtxNodes(ctx)
    requires elm in s.mem && s.mem[elm] == Cell(null, null, Parent(ctx), Red)
    ensures Zip(s, ctx, Bin(Nil, elm, Red, Nil))
  {
  }

  lemma {:induction false} OneHigher(t: Tree)
    requires t.Bin?
    ensures Height(t) >= 1
  {
  }

  lemma {:induction false} TopIn(ctx: Ctx, t: Tree)
    requires t.Bin?
    ensures t.node in Flat(ctx, t)
  {
    assert t.node in InOrder(t);
  }

  /** The search loop: the equal node, or null with the parent and the last comparison. */
  method Locate(h: Head, elm: Elem)
    returns (tmp: Elem?, parent: Elem?, comp: int, ghost ctx: Ctx, ghost b: nat, ghost comparisons: nat)
    requires Valid(h)
    ensures WithinBound(comparisons, |Elements(h)|)
    ensures tmp == null ==> comparisons == Depth(ctx)
    ensures tmp != null ==> tmp in Elements(h) && h.cmp(elm.key, tmp.key) == 0
    ensures tmp == null ==> Here(h.store, h.shape, h.cmp, ctx, Nil, b, elm.key)
    ensures tmp == null ==> parent == Parent(ctx) && (parent != null ==> (comp < 0 <==> ctx.InLeft?))
  {
    hide WithinBound, Zip, Flat, InOrder, Fits, At;
    ghost var t := h.shape;
    ctx, b := Top, BlackHeight(h.shape);
    Start(h, elm.key);
    parent, comp, comparisons := null, 0, 0;
    tmp := h.root;
    while tmp != null
      invariant Here(h.store, h.shape, h.cmp, ctx, t, b, elm.key)
      invariant tmp == Root(t) && parent == Parent(ctx)
      invariant parent != null ==> (comp < 0 <==> ctx.InLeft?)
      invariant comparisons == Depth(ctx)
      decreases t
    {
      parent := tmp;
      comp := h.cmp(elm.key, parent.key);
      comparisons := comparisons + 1;
      Fields(h.store, ctx, t);
      if comp < 0 {
        tmp := tmp.left;
        GoLeft(h.store, h.shape, h.cmp, ctx, t, b, elm.key);
        b := if t.color == Red then b else b - 1;
        ctx, t := InLeft(ctx, t.node, t.color, t.right), t.left;
      } else if comp > 0 {
        tmp := tmp.right;
        GoRight(h.store, h.shape, h.cmp, ctx, t, b, elm.key);
        b := if t.color == Red then b else b - 1;
        ctx, t := InRight(ctx, t.left, t.node, t.color), t.right;
      } else {
        DepthBound(ctx, t, b, comparisons) by { OneHigher(t); }
        TopIn(ctx, t);
        return;
      }
    }
    DepthBound(ctx, t, b, comparisons);
  }

  lemma {:induction false} FlatLeaf(ctx: Ctx, n: Elem)
    ensures Flat(ctx, Nil) == Before(ctx) + After(ctx)
    ensures Flat(ctx, Bin(Nil, n, Red, Nil)) == Before(ctx) + [n] + After(ctx)
    ensures forall m :: m in Flat(ctx, Bin(Nil, n, Red, Nil)) <==> m == n || m in Flat(ctx, Nil)
  {
    var a, b := Before(ctx), After(ctx);
    assert Flat(ctx, Bin(Nil, n, Red, Nil)) == a + [n] + b;
    assert Flat(ctx, Nil) == a + b;
  }

  lemma {:induction false} Inserted(cmp: Compare, ctx: Ctx, elm: Elem)
    requires TotalOrder(cmp) && At(cmp, ctx, Nil, elm.key)
    ensures var s, s' := Flat(ctx, Nil), Flat(ctx, Bin(Nil, elm, Red, Nil));
      PutIn(s, |Before(ctx)|, elm, s') && Sorted(cmp, Keys(s'))
  {
    NotFound(cmp, ctx, elm.key);
    PutInBetween(Before(ctx), elm, After(ctx));
    FlatLeaf(ctx, elm);
  }

  /** A node whose key is not in the tree is not in the tree. */
  lemma {:induction false} Absent(cmp: Compare, m: Mem, ctx: Ctx, elm: Elem)
    requires TotalOrder(cmp) && At(cmp, ctx, Nil, elm.key) && Tracks(m, Flat(ctx, Nil))
    ensures elm !in m && elm !in CtxNodes(ctx)
  {
    hide Flat, Before, After, Sorted, CtxNodes;
    assert elm !in Flat(ctx, Nil) by {
      NotFound(cmp, ctx, elm.key);
      assert cmp(elm.key, elm.key) == 0;
    }
    CtxNodesFlat(ctx);
    FlatNil(ctx);
  }

  lemma {:induction false} TracksLeaf(m: Mem, m': Mem, ctx: Ctx, elm: Elem, s: seq<Elem>)
    requires Tracks(m, Flat(ctx, Nil)) && Adds(m, m', elm) && s == Flat(ctx, Bin(Nil, elm, Red, Nil))
    ensures Tracks(m', s)
  {
    FlatLeaf(ctx, elm);
  }

  /** The insertion proper: `elm` is linked into the hole found and the colours are fixed. */
  method InsertAt(h: Head, elm: Elem, parent: Elem?, comp: int, ghost ctx: Ctx, ghost b: nat)
    returns (ghost rotations: nat, ghost rounds: nat)
    requires Holds(h, h.store) && TotalOrder(h.cmp) && Tracks(h.store.mem, Flat(ctx, Nil))
    requires RepCtx(h.store, ctx, null) && elm !in h.store.mem && elm !in CtxNodes(ctx)
    requires parent == Parent(ctx) && (parent != null ==> (comp < 0 <==> ctx.InLeft?))
    requires CtxRB(ctx, b) && b == 0
    requires Sorted(h.cmp, Keys(Flat(ctx, Bin(Nil, elm, Red, Nil))))
    modifies h, h.store.mem.Keys`left, h.store.mem.Keys`right, h.store.mem.Keys`parent, h.store.mem.Keys`color
    modifies elm`left, elm`right, elm`parent, elm`color
    ensures Valid(h) && rotations <= 2 && rounds <= Depth(ctx)
    ensures Elements(h) == Flat(ctx, Bin(Nil, elm, Red, Nil))
    ensures Adds(old(h.store.mem), h.store.mem, elm)
  {
    ghost var s0, leaf := h.store, Bin(Nil, elm, Red, Nil);
    CtxFields(s0, ctx, null);
    ghost var s1 := Attach(h, elm, parent, comp < 0, s0, ctx);
    ghost var s, shape;
    s, shape, rotations, rounds := InsertColor(h, elm, s1, ctx, leaf, b);
    TracksLeaf(s0.mem, s.mem, ctx, elm, InOrder(shape));
    Commit(h, s, shape);
  }

  /** `RB_INSERT`. The comparisons of the search and the rounds of the fix-up are within the bound for
      the tree as it was. */
  method Insert(h: Head, elm: Elem)
    returns (r: Elem?, ghost at: nat, ghost rotations: nat, ghost comparisons: nat, ghost rounds: nat)
    requires Valid(h)
    modifies h, h.store.mem.Keys`left, h.store.mem.Keys`right, h.store.mem.Keys`parent, h.store.mem.Keys`color
    modifies elm`left, elm`right, elm`parent, elm`color
    ensures Valid(h) && rotations <= 2 && rounds <= comparisons && WithinBound(comparisons, |old(Elements(h))|)
    ensures r != null ==>
      && r in old(Elements(h)) && h.cmp(elm.key, r.key) == 0
      && h.shape == old(h.shape) && h.store == old(h.store) && unchanged(elm)
    ensures r == null ==>
      && (forall n :: n in old(Elements(h)) ==> h.cmp(elm.key, n.key) != 0)
      && PutIn(old(Elements(h)), at, elm, Elements(h)) && Adds(old(h.store.mem), h.store.mem, elm)
  {
    hide WithinBound;
    var parent, comp;
    ghost var ctx, b;
    r, parent, comp, ctx, b, comparisons := Locate(h, elm);
    at, rotations, rounds := |Before(ctx)|, 0, 0;
    if r == null {
      NotFound(h.cmp, ctx, elm.key);
      Absent(h.cmp, h.store.mem, ctx, elm);
      Inserted(h.cmp, ctx, elm);
      rotations, rounds := InsertAt(h, elm, parent, comp, ctx, b);
    }
  }
}
