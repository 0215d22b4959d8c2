/** `RB_REMOVE_COLOR`: the colour fix-up after a black node has been taken out. */
module RbRemoveColor {
  import opened Entries
  import opened RbShape
  import opened RbBalance
  import opened RbStore
  import opened RbRotate

  /** Every path through `t` is one black node short of what its place in `ctx` asks for; painting a
      red top of `t` black would make up for it. */
  ghost predicate Short(ctx: Ctx, t: Tree, b: nat) {
    && CtxRB(ctx, b + 1)
    && if IsRed(t) then RB(t.left, b) && RB(t.right, b) else RB(t, b)
  }

  /** `RB_COLOR(n) = c` for the hole's parent. */
  method PaintHole(h: Head, n: Elem, c: Color, ghost s: Store, ghost ctx: Ctx, ghost t: Tree) returns (ghost s': Store)
    requires Holds(h, s) && Zip(s, ctx, t) && !ctx.Top? && n == ctx.node
    modifies n`color
    ensures Holds(h, s') && s'.mem.Keys == s.mem.Keys
    ensures Zip(s', if ctx.InLeft? then InLeft(ctx.up, n, c, ctx.right) else InRight(ctx.up, ctx.left, n, c), t)
  {
    ghost var p := Grow(ctx, t);
    Up(s, ctx, t);
    Fields(s, ctx.up, p);
    s' := Paint(h, n, c, s, ctx.up, p);
    if ctx.InLeft? {
      DownLeft(s', ctx.up, p.(color := c));
    } else {
      DownRight(s', ctx.up, p.(color := c));
    }
  }

  // ---------- the short side is the left ----------

  /** The sibling is red: after a rotation at the parent it is black, and the parent is red. */
  lemma {:induction false} RedSiblingLeftOk(ctx: Ctx, t: Tree, b: nat)
    requires Short(ctx, t, b) && ctx.InLeft? && IsRed(ctx.right)
    ensures ctx.color == Black && ctx.right.left.Bin?
    ensures var r := ctx.right;
      var p := Bin(t, ctx.node, Red, Bin(r.left, r.node, Black, r.right));
      var ctx' := InLeft(InLeft(ctx.up, r.node, Black, r.right), ctx.node, Red, r.left);
      && RotL(p) == Grow(ctx'.up, Grow(ctx', t))
      && Short(ctx', t, b) && !IsRed(ctx'.right) && Flat(ctx', t) == Flat(ctx, t)
  {
    var r := ctx.right;
    var p := Bin(t, ctx.node, Red, Bin(r.left, r.node, Black, r.right));
    var ctx' := InLeft(InLeft(ctx.up, r.node, Black, r.right), ctx.node, Red, r.left);
    assert RB(r.left, b + 1);
    assert CtxRB(ctx'.up, b + 1);
    FlatUp(ctx, t);
    FlatUp(ctx', t);
    FlatUp(ctx'.up, Grow(ctx', t));
    RotLInOrder(p);
  }

  /** Both nephews are black: painting the sibling red makes the parent's tree the short one. */
  lemma {:induction false} ClimbLeftOk(ctx: Ctx, t: Tree, b: nat)
    requires Short(ctx, t, b) && !IsRed(t) && ctx.InLeft? && !IsRed(ctx.right)
    ensures ctx.right.Bin?
    ensures !IsRed(ctx.right.left) && !IsRed(ctx.right.right) ==>
      var t' := Bin(t, ctx.node, ctx.color, Redden(ctx.right));
      Short(ctx.up, t', if ctx.color == Red then b else b + 1) && Flat(ctx.up, t') == Flat(ctx, t)
  {
    FlatUp(ctx, t);
    assert InOrder(Redden(ctx.right)) == InOrder(ctx.right);
  }

  /** The outer nephew is red: one rotation at the parent restores every condition. */
  lemma {:induction false} OuterNephewLeftOk(ctx: Ctx, t: Tree, b: nat)
    requires Short(ctx, t, b) && !IsRed(t) && ctx.InLeft? && ctx.right.Bin? && !IsRed(ctx.right)
    requires IsRed(ctx.right.right)
    ensures var r := ctx.right;
      var p := Bin(t, ctx.node, Black, Bin(r.left, r.node, ctx.color, Blacken(r.right)));
      && Fits(ctx.up, RotL(p), UpHeight(ctx, b + 1)) && Flat(ctx.up, RotL(p)) == Flat(ctx, t)
      && (ctx.up.Top? ==> !IsRed(RotL(p)))
  {
    var r := ctx.right;
    var p := Bin(t, ctx.node, Black, Bin(r.left, r.node, ctx.color, Blacken(r.right)));
    assert RB(r.right, b);
    assert RB(RotL(p).left, b + 1) && RB(RotL(p).right, b + 1);
    FlatUp(ctx, t);
    RotLInOrder(p);
    assert InOrder(Blacken(r.right)) == InOrder(r.right);
    assert InOrder(Bin(r.left, r.node, ctx.color, Blacken(r.right))) == InOrder(r);
  }

  /** Only the inner nephew is red: a rotation at the sibling makes it the outer case. */
  lemma {:induction false} InnerNephewLeftOk(ctx: Ctx, t: Tree, b: nat)
    requires Short(ctx, t, b) && ctx.InLeft? && ctx.right.Bin? && !IsRed(ctx.right)
    requires IsRed(ctx.right.left) && !IsRed(ctx.right.right)
    ensures var r := ctx.right;
      var s := Bin(Blacken(r.left), r.node, Red, r.right);
      var ctx' := InLeft(ctx.up, ctx.node, ctx.color, RotR(s));
      Short(ctx', t, b) && !IsRed(RotR(s)) && IsRed(RotR(s).right) && Flat(ctx', t) == Flat(ctx, t)
  {
    var r := ctx.right;
    var s := Bin(Blacken(r.left), r.node, Red, r.right);
    var ctx' := InLeft(ctx.up, ctx.node, ctx.color, RotR(s));
    FlatUp(ctx, t);
    FlatUp(ctx', t);
    RotRInOrder(s);
    assert RB(r.left, b);
    assert RB(RotR(s).right, b);
    assert InOrder(Blacken(r.left)) == InOrder(r.left);
  }

  /** `RB_SET_BLACKRED(tmp, parent)` and the rotation at the parent. */
  method TurnRedSiblingLeft(h: Head, parent: Elem, tmp0: Elem, ghost s0: Store, ghost ctx0: Ctx, ghost t: Tree,
      ghost b: nat)
    returns (tmp: Elem, ghost s: Store, ghost ctx: Ctx)
    requires Holds(h, s0) && Zip(s0, ctx0, t) && Short(ctx0, t, b) && ctx0.InLeft? && IsRed(ctx0.right)
    requires parent == ctx0.node && tmp0 == ctx0.right.node
    modifies h`root, s0.mem.Keys`left, s0.mem.Keys`right, s0.mem.Keys`parent, s0.mem.Keys`color
    ensures Holds(h, s) && s.mem.Keys == s0.mem.Keys
    ensures Zip(s, ctx, t) && Short(ctx, t, b) && Flat(ctx, t) == Flat(ctx0, t)
    ensures ctx.InLeft? && ctx.node == parent && ctx.color == Red && !IsRed(ctx.right) && tmp == Root(ctx.right)
    ensures Depth(ctx) == Depth(ctx0) + 1
  {
    RedSiblingLeftOk(ctx0, t, b);
    ghost var r := ctx0.right;
    Across(s0, ctx0, t);
    Fields(s0, Other(ctx0, t), r);
    s := Paint(h, tmp0, Black, s0, Other(ctx0, t), r);
    ghost var p := Bin(t, parent, Black, Blacken(r));
    Up(s, Other(ctx0, t), Blacken(r));
    Fields(s, ctx0.up, p);
    s := Paint(h, parent, Red, s, ctx0.up, p);
    var up;
    up, s := RotateLeft(h, parent, s, ctx0.up, Redden(p));
    ctx := InLeft(InLeft(ctx0.up, r.node, Black, r.right), parent, Red, r.left);
    DownLeft(s, ctx0.up, RotL(Redden(p)));
    DownLeft(s, ctx.up, RotL(Redden(p)).left);
    CtxFields(s, ctx, Root(t));
    tmp := parent.right;
  }

  /** The left nephew is painted black, the sibling red, and the sibling is rotated. */
  method TurnInnerNephewLeft(h: Head, parent: Elem, tmp0: Elem, ghost s0: Store, ghost ctx0: Ctx, ghost t: Tree,
      ghost b: nat)
    returns (tmp: Elem, ghost s: Store, ghost ctx: Ctx)
    requires Holds(h, s0) && Zip(s0, ctx0, t) && Short(ctx0, t, b) && ctx0.InLeft?
    requires ctx0.right.Bin? && !IsRed(ctx0.right) && IsRed(ctx0.right.left) && !IsRed(ctx0.right.right)
    requires parent == ctx0.node && tmp0 == ctx0.right.node
    modifies h`root, s0.mem.Keys`left, s0.mem.Keys`right, s0.mem.Keys`parent, s0.mem.Keys`color
    ensures Holds(h, s) && s.mem.Keys == s0.mem.Keys
    ensures Zip(s, ctx, t) && Short(ctx, t, b) && Flat(ctx, t) == Flat(ctx0, t)
    ensures ctx.InLeft? && ctx.node == parent && ctx.up == ctx0.up && ctx.color == ctx0.color
    ensures ctx.right.Bin? && tmp == ctx.right.node && !IsRed(ctx.right) && IsRed(ctx.right.right)
  {
    InnerNephewLeftOk(ctx0, t, b);
    ghost var r, o := ctx0.right, Other(ctx0, t);
    Across(s0, ctx0, t);
    Fields(s0, o, r);
    DownLeft(s0, o, r);
    ghost var oc := InLeft(o, r.node, r.color, r.right);
    Fields(s0, oc, r.left);
    var oleft := tmp0.left;
    s := s0;
    if oleft != null {
      s := Paint(h, oleft, Black, s, oc, r.left);
    }
    Up(s, oc, Blacken(r.left));
    r := Bin(Blacken(r.left), tmp0, Black, r.right);
    Fields(s, o, r);
    s := Paint(h, tmp0, Red, s, o, r);
    oleft, s := RotateRight(h, tmp0, s, o, Redden(r));
    Across(s, o, RotR(Redden(r)));
    ctx := InLeft(ctx0.up, parent, ctx0.color, RotR(Redden(r)));
    CtxFields(s, ctx, Root(t));
    tmp := parent.right;
  }

  /** The sibling takes the parent's colour, the parent and the outer nephew turn black, and the
      parent is rotated. */
  method FinishLeft(h: Head, parent: Elem, tmp: Elem, ghost s0: Store, ghost ctx: Ctx, ghost t: Tree, ghost b: nat)
    returns (ghost s: Store, ghost t': Tree)
    requires Holds(h, s0) && Zip(s0, ctx, t) && Short(ctx, t, b) && !IsRed(t) && ctx.InLeft?
    requires ctx.right.Bin? && !IsRed(ctx.right) && IsRed(ctx.right.right)
    requires parent == ctx.node && tmp == ctx.right.node
    modifies h`root, s0.mem.Keys`left, s0.mem.Keys`right, s0.mem.Keys`parent, s0.mem.Keys`color
    ensures Holds(h, s) && s.mem.Keys == s0.mem.Keys
    ensures Zip(s, ctx.up, t') && t'.Bin? && Fits(ctx.up, t', UpHeight(ctx, b + 1)) && Flat(ctx.up, t') == Flat(ctx, t)
    ensures ctx.up.Top? ==> !IsRed(t')
  {
    OuterNephewLeftOk(ctx, t, b);
    ghost var r, o := ctx.right, Other(ctx, t);
    CtxFields(s0, ctx, Root(t));
    Across(s0, ctx, t);
    Fields(s0, o, r);
    s := Paint(h, tmp, parent.color, s0, o, r);
    r := Bin(r.left, tmp, ctx.color, r.right);
    Across(s, o, r);
    s := PaintHole(h, parent, Black, s, InLeft(ctx.up, parent, ctx.color, r), t);
    ghost var ctx1 := InLeft(ctx.up, parent, Black, r);
    o := Other(ctx1, t);
    Across(s, ctx1, t);
    Fields(s, o, r);
    DownRight(s, o, r);
    ghost var oc := InRight(o, r.left, tmp, r.color);
    if tmp.right != null {
      Fields(s, oc, r.right);
      s := Paint(h, tmp.right, Black, s, oc, r.right);
    }
    Up(s, oc, Blacken(r.right));
    r := Bin(r.left, tmp, ctx.color, Blacken(r.right));
    Up(s, o, r);
    var up;
    up, s := RotateLeft(h, parent, s, ctx.up, Bin(t, parent, Black, r));
    t' := RotL(Bin(t, parent, Black, r));
  }

  // ---------- the short side is the right ----------

  /** The sibling is red: after a rotation at the parent it is black, and the parent is red. */
  lemma {:induction false} RedSiblingRightOk(ctx: Ctx, t: Tree, b: nat)
    requires Short(ctx, t, b) && ctx.InRight? && IsRed(ctx.left)
    ensures ctx.color == Black && ctx.left.right.Bin?
    ensures var r := ctx.left;
      var p := Bin(Bin(r.left, r.node, Black, r.right), ctx.node, Red, t);
      var ctx' := InRight(InRight(ctx.up, r.left, r.node, Black), r.right, ctx.node, Red);
      && RotR(p) == Grow(ctx'.up, Grow(ctx', t))
      && Short(ctx', t, b) && !IsRed(ctx'.left) && Flat(ctx', t) == Flat(ctx, t)
  {
    var r := ctx.left;
    var p := Bin(Bin(r.left, r.node, Black, r.right), ctx.node, Red, t);
    var ctx' := InRight(InRight(ctx.up, r.left, r.node, Black), r.right, ctx.node, Red);
    assert RB(r.right, b + 1);
    assert CtxRB(ctx'.up, b + 1);
    FlatUp(ctx, t);
    FlatUp(ctx', t);
    FlatUp(ctx'.up, Grow(ctx', t));
    RotRInOrder(p);
  }

  /** Both nephews are black: painting the sibling red makes the parent's tree the short one. */
  lemma {:induction false} ClimbRightOk(ctx: Ctx, t: Tree, b: nat)
    requires Short(ctx, t, b) && !IsRed(t) && ctx.InRight? && !IsRed(ctx.left)
    ensures ctx.left.Bin?
    ensures !IsRed(ctx.left.right) && !IsRed(ctx.left.left) ==>
      var t' := Bin(Redden(ctx.left), ctx.node, ctx.color, t);
      Short(ctx.up, t', if ctx.color == Red then b else b + 1) && Flat(ctx.up, t') == Flat(ctx, t)
  {
    FlatUp(ctx, t);
    assert InOrder(Redden(ctx.left)) == InOrder(ctx.left);
  }

  /** The outer nephew is red: one rotation at the parent restores every condition. */
  lemma {:induction false} OuterNephewRightOk(ctx: Ctx, t: Tree, b: nat)
    requires Short(ctx, t, b) && !IsRed(t) && ctx.InRight? && ctx.left.Bin? && !IsRed(ctx.left) && IsRed(ctx.left.left)
    ensures var r := ctx.left;
      var p := Bin(Bin(Blacken(r.left), r.node, ctx.color, r.right), ctx.node, Black, t);
      && Fits(ctx.up, RotR(p), UpHeight(ctx, b + 1)) && Flat(ctx.up, RotR(p)) == Flat(ctx, t)
      && (ctx.up.Top? ==> !IsRed(RotR(p)))
  {
    var r := ctx.left;
    var p := Bin(Bin(Blacken(r.left), r.node, ctx.color, r.right), ctx.node, Black, t);
    assert RB(r.left, b);
    assert RB(RotR(p).right, b + 1) && RB(RotR(p).left, b + 1);
    FlatUp(ctx, t);
    RotRInOrder(p);
    assert InOrder(Blacken(r.left)) == InOrder(r.left);
    assert InOrder(Bin(Blacken(r.left), r.node, ctx.color, r.right)) == InOrder(r);
  }

  /** Only the inner nephew is red: a rotation at the sibling makes it the outer case. */
  lemma {:induction false} InnerNephewRightOk(ctx: Ctx, t: Tree, b: nat)
    requires Short(ctx, t, b) && ctx.InRight? && ctx.left.Bin? && !IsRed(ctx.left)
    requires IsRed(ctx.left.right) && !IsRed(ctx.left.left)
    ensures var r := ctx.left;
      var s := Bin(r.left, r.node, Red, Blacken(r.right));
      var ctx' := InRight(ctx.up, RotL(s), ctx.node, ctx.color);
      Short(ctx', t, b) && !IsRed(RotL(s)) && IsRed(RotL(s).left) && Flat(ctx', t) == Flat(ctx, t)
  {
    var r := ctx.left;
    var s := Bin(r.left, r.node, Red, Blacken(r.right));
    var ctx' := InRight(ctx.up, RotL(s), ctx.node, ctx.color);
    FlatUp(ctx, t);
    FlatUp(ctx', t);
    RotLInOrder(s);
    assert RB(r.right, b);
    assert RB(RotL(s).left, b);
    assert InOrder(Blacken(r.right)) == InOrder(r.right);
  }

  /** `RB_SET_BLACKRED(tmp, parent)` and the rotation at the parent. */
  method TurnRedSiblingRight(h: Head, parent: Elem, tmp0: Elem, ghost s0: Store, ghost ctx0: Ctx, ghost t: Tree,
      ghost b: nat)
    returns (tmp: Elem, ghost s: Store, ghost ctx: Ctx)
    requires Holds(h, s0) && Zip(s0, ctx0, t) && Short(ctx0, t, b) && ctx0.InRight? && IsRed(ctx0.left)
    requires parent == ctx0.node && tmp0 == ctx0.left.node
    modifies h`root, s0.mem.Keys`left, s0.mem.Keys`right, s0.mem.Keys`parent, s0.mem.Keys`color
    ensures Holds(h, s) && s.mem.Keys == s0.mem.Keys
    ensures Zip(s, ctx, t) && Short(ctx, t, b) && Flat(ctx, t) == Flat(ctx0, t)
    ensures ctx.InRight? && ctx.node == parent && ctx.color == Red && !IsRed(ctx.left) && tmp == Root(ctx.left)
    ensures Depth(ctx) == Depth(ctx0) + 1
  {
    RedSiblingRightOk(ctx0, t, b);
    ghost var r := ctx0.left;
    Across(s0, ctx0, t);
    Fields(s0, Other(ctx0, t), r);
    s := Paint(h, tmp0, Black, s0, Other(ctx0, t), r);
    ghost var p := Bin(Blacken(r), parent, Black, t);
    Up(s, Other(ctx0, t), Blacken(r));
    Fields(s, ctx0.up, p);
    s := Paint(h, parent, Red, s, ctx0.up, p);
    var up;
    up, s := RotateRight(h, parent, s, ctx0.up, Redden(p));
    ctx := InRight(InRight(ctx0.up, r.left, r.node, Black), r.right, parent, Red);
    DownRight(s, ctx0.up, RotR(Redden(p)));
    DownRight(s, ctx.up, RotR(Redden(p)).right);
    CtxFields(s, ctx, Root(t));
    tmp := parent.left;
  }

  /** The right nephew is painted black, the sibling red, and the sibling is rotated. */
  method TurnInnerNephewRight(h: Head, parent: Elem, tmp0: Elem, ghost s0: Store, ghost ctx0: Ctx, ghost t: Tree,
      ghost b: nat)
    returns (tmp: Elem, ghost s: Store, ghost ctx: Ctx)
    requires Holds(h, s0) && Zip(s0, ctx0, t) && Short(ctx0, t, b) && ctx0.InRight?
    requires ctx0.left.Bin? && !IsRed(ctx0.left) && IsRed(ctx0.left.right) && !IsRed(ctx0.left.left)
    requires parent == ctx0.node && tmp0 == ctx0.left.node
    modifies h`root, s0.mem.Keys`left, s0.mem.Keys`right, s0.mem.Keys`parent, s0.mem.Keys`color
    ensures Holds(h, s) && s.mem.Keys == s0.mem.Keys
    ensures Zip(s, ctx, t) && Short(ctx, t, b) && Flat(ctx, t) == Flat(ctx0, t)
    ensures ctx.InRight? && ctx.node == parent && ctx.up == ctx0.up && ctx.color == ctx0.color
    ensures ctx.left.Bin? && tmp == ctx.left.node && !IsRed(ctx.left) && IsRed(ctx.left.left)
  {
    InnerNephewRightOk(ctx0, t, b);
    ghost var r, o := ctx0.left, Other(ctx0, t);
    Across(s0, ctx0, t);
    Fields(s0, o, r);
    DownRight(s0, o, r);
    ghost var oc := InRight(o, r.left, r.node, r.color);
    Fields(s0, oc, r.right);
    var oright := tmp0.right;
    s := s0;
    if oright != null {
      s := Paint(h, oright, Black, s, oc, r.right);
    }
    Up(s, oc, Blacken(r.right));
    r := Bin(r.left, tmp0, Black, Blacken(r.right));
    Fields(s, o, r);
    s := Paint(h, tmp0, Red, s, o, r);
    oright, s := RotateLeft(h, tmp0, s, o, Redden(r));
    Across(s, o, RotL(Redden(r)));
    ctx := InRight(ctx0.up, RotL(Redden(r)), parent, ctx0.color);
    CtxFields(s, ctx, Root(t));
    tmp := parent.left;
  }

  /** The sibling takes the parent's colour, the parent and the outer nephew turn black, and the
      parent is rotated. */
  method FinishRight(h: Head, parent: Elem, tmp: Elem, ghost s0: Store, ghost ctx: Ctx, ghost t: Tree, ghost b: nat)
    returns (ghost s: Store, ghost t': Tree)
    requires Holds(h, s0) && Zip(s0, ctx, t) && Short(ctx, t, b) && !IsRed(t) && ctx.InRight?
    requires ctx.left.Bin? && !IsRed(ctx.left) && IsRed(ctx.left.left)
    requires parent == ctx.node && tmp == ctx.left.node
    modifies h`root, s0.mem.Keys`left, s0.mem.Keys`right, s0.mem.Keys`parent, s0.mem.Keys`color
    ensures Holds(h, s) && s.mem.Keys == s0.mem.Keys
    ensures Zip(s, ctx.up, t') && t'.Bin? && Fits(ctx.up, t', UpHeight(ctx, b + 1)) && Flat(ctx.up, t') == Flat(ctx, t)
    ensures ctx.up.Top? ==> !IsRed(t')
  {
    OuterNephewRightOk(ctx, t, b);
    ghost var r, o := ctx.left, Other(ctx, t);
    CtxFields(s0, ctx, Root(t));
    Across(s0, ctx, t);
    Fields(s0, o, r);
    s := Paint(h, tmp, parent.color, s0, o, r);
    r := Bin(r.left, tmp, ctx.color, r.right);
    Across(s, o, r);
    s := PaintHole(h, parent, Black, s, InRight(ctx.up, r, parent, ctx.color), t);
    ghost var ctx1 := InRight(ctx.up, r, parent, Black);
    o := Other(ctx1, t);
    Across(s, ctx1, t);
    Fields(s, o, r);
    DownLeft(s, o, r);
    ghost var oc := InLeft(o, tmp, r.color, r.right);
    if tmp.left != null {
      Fields(s, oc, r.left);
      s := Paint(h, tmp.left, Black, s, oc, r.left);
    }
    Up(s, oc, Blacken(r.left));
    r := Bin(Blacken(r.left), tmp, ctx.color, r.right);
    Up(s, o, r);
    var up;
    up, s := RotateRight(h, parent, s, ctx.up, Bin(r, parent, Black, t));
    t' := RotR(Bin(r, parent, Black, t));
  }

  // ---------- the loop ----------

  /** The sibling is a node, and what the loop reads of it and of its children. */
  lemma {:induction false} Siblings(s: Store, ctx: Ctx, t: Tree, b: nat)
    requires Zip(s, ctx, t) && Short(ctx, t, b) && !ctx.Top?
    ensures Sibling(ctx).Bin?
    ensures var w := Sibling(ctx);
      && ctx.node in s.mem && w.node == (if ctx.InLeft? then s.mem[ctx.node].right else s.mem[ctx.node].left)
      && w.node in s.mem && s.mem[w.node] == Cell(Root(w.left), Root(w.right), ctx.node, w.color)
      && (w.left.Bin? ==> w.left.node in s.mem && s.mem[w.left.node].color == w.left.color)
      && (w.right.Bin? ==> w.right.node in s.mem && s.mem[w.right.node].color == w.right.color)
  {
    var w, o := Sibling(ctx), Other(ctx, t);
    CtxFields(s, ctx, Root(t));
    Across(s, ctx, t);
    Fields(s, o, w);
    if w.left.Bin? {
      DownLeft(s, o, w);
      Fields(s, InLeft(o, w.node, w.color, w.right), w.left);
    }
    if w.right.Bin? {
      DownRight(s, o, w);
      Fields(s, InRight(o, w.left, w.node, w.color), w.right);
    }
  }

  /** `RB_COLOR(tmp) = c` for the sibling; the hole moves up to the parent. */
  method PaintSibling(h: Head, tmp: Elem, c: Color, ghost s: Store, ghost ctx: Ctx, ghost t: Tree)
    returns (ghost s': Store)
    requires Holds(h, s) && Zip(s, ctx, t) && !ctx.Top? && Sibling(ctx).Bin? && tmp == Sibling(ctx).node
    requires tmp in s.mem
    modifies tmp`color
    ensures Holds(h, s') && s'.mem.Keys == s.mem.Keys
    ensures Zip(s', ctx.up, Grow(Other(ctx, t), Sibling(ctx).(color := c)))
  {
    Across(s, ctx, t);
    s' := Paint(h, tmp, c, s, Other(ctx, t), Sibling(ctx));
    Up(s', Other(ctx, t), Sibling(ctx).(color := c));
  }

  /** `tmp`, the sibling on the right, black: turned if it was red. */
  method BlackSiblingLeft(h: Head, parent: Elem, ghost s0: Store, ghost ctx0: Ctx, ghost t: Tree, ghost b: nat)
    returns (tmp: Elem, ghost s: Store, ghost ctx: Ctx, ghost rotations: nat)
    requires Holds(h, s0) && Zip(s0, ctx0, t) && Short(ctx0, t, b)
    requires ctx0.InLeft? && parent == ctx0.node
    modifies h`root, s0.mem.Keys`left, s0.mem.Keys`right, s0.mem.Keys`parent, s0.mem.Keys`color
    ensures Holds(h, s) && s.mem.Keys == s0.mem.Keys
    ensures Zip(s, ctx, t) && Short(ctx, t, b) && Flat(ctx, t) == Flat(ctx0, t)
    ensures ctx.InLeft? && ctx.node == parent && !IsRed(ctx.right) && tmp == Root(ctx.right)
    ensures if rotations == 0 then ctx == ctx0 else rotations == 1 && ctx.color == Red && Depth(ctx) == Depth(ctx0) + 1
  {
    Siblings(s0, ctx0, t, b);
    s, ctx, rotations := s0, ctx0, 0;
    tmp := parent.right;
    if tmp.color == Red {
      tmp, s, ctx := TurnRedSiblingLeft(h, parent, tmp, s, ctx, t, b);
      rotations := 1;
    }
  }

  /** A black sibling on the right with a red child: every condition is restored. */
  method RestoreLeft(h: Head, parent: Elem, tmp0: Elem, ghost s0: Store, ghost ctx0: Ctx, ghost t0: Tree, ghost b: nat)
    returns (ghost s: Store, ghost t: Tree, ghost rotations: nat)
    requires Holds(h, s0) && Zip(s0, ctx0, t0) && Short(ctx0, t0, b) && !IsRed(t0)
    requires ctx0.InLeft? && parent == ctx0.node && ctx0.right.Bin? && !IsRed(ctx0.right) && tmp0 == ctx0.right.node
    requires IsRed(ctx0.right.left) || IsRed(ctx0.right.right)
    modifies h`root, s0.mem.Keys`left, s0.mem.Keys`right, s0.mem.Keys`parent, s0.mem.Keys`color
    ensures Holds(h, s) && s.mem.Keys == s0.mem.Keys
    ensures Zip(s, ctx0.up, t) && t.Bin? && Flat(ctx0.up, t) == Flat(ctx0, t0)
    ensures Fits(ctx0.up, t, UpHeight(ctx0, b + 1)) && (ctx0.up.Top? ==> !IsRed(t)) && rotations <= 2
  {
    ghost var ctx := ctx0;
    s, rotations := s0, 0;
    Siblings(s, ctx, t0, b);
    var tmp := tmp0;
    if tmp.right == null || tmp.right.color == Black {
      tmp, s, ctx := TurnInnerNephewLeft(h, parent, tmp, s, ctx, t0, b);
      rotations := rotations + 1;
    }
    s, t := FinishLeft(h, parent, tmp, s, ctx, t0, b);
    rotations := rotations + 1;
  }

  /** A black sibling on the right with black children is painted red. */
  method ClimbLeft(h: Head, tmp: Elem, ghost s0: Store, ghost ctx0: Ctx, ghost t0: Tree, ghost b0: nat)
    returns (ghost s: Store, ghost t: Tree, ghost b: nat)
    requires Holds(h, s0) && Zip(s0, ctx0, t0) && Short(ctx0, t0, b0) && !IsRed(t0)
    requires ctx0.InLeft? && ctx0.right.Bin? && !IsRed(ctx0.right) && tmp == ctx0.right.node
    requires !IsRed(ctx0.right.left) && !IsRed(ctx0.right.right)
    modifies s0.mem.Keys`left, s0.mem.Keys`right, s0.mem.Keys`parent, s0.mem.Keys`color
    ensures Holds(h, s) && s.mem.Keys == s0.mem.Keys
    ensures Zip(s, ctx0.up, t) && Flat(ctx0.up, t) == Flat(ctx0, t0)
    ensures Short(ctx0.up, t, b) && t.Bin? && t.node == ctx0.node && t.color == ctx0.color
  {
    ClimbLeftOk(ctx0, t0, b0);
    Siblings(s0, ctx0, t0, b0);
    s := PaintSibling(h, tmp, Red, s0, ctx0, t0);
    t := Bin(t0, ctx0.node, ctx0.color, Redden(ctx0.right));
    b := if ctx0.color == Red then b0 else b0 + 1;
  }

  /** The rest of a round, with a black sibling on the right. */
  method SettleLeft(h: Head, parent: Elem, tmp: Elem, ghost s0: Store, ghost ctx0: Ctx, ghost t0: Tree, ghost b0: nat)
    returns (done: bool, ghost s: Store, ghost t: Tree, ghost b: nat, ghost rotations: nat)
    requires Holds(h, s0) && Zip(s0, ctx0, t0) && Short(ctx0, t0, b0) && !IsRed(t0)
    requires ctx0.InLeft? && parent == ctx0.node && !IsRed(ctx0.right) && tmp == Root(ctx0.right)
    modifies h`root, s0.mem.Keys`left, s0.mem.Keys`right, s0.mem.Keys`parent, s0.mem.Keys`color
    ensures Holds(h, s) && s.mem.Keys == s0.mem.Keys
    ensures Zip(s, ctx0.up, t) && t.Bin? && Flat(ctx0.up, t) == Flat(ctx0, t0)
    ensures done ==> Fits(ctx0.up, t, b) && (ctx0.up.Top? ==> !IsRed(t)) && rotations <= 2
    ensures !done ==> Short(ctx0.up, t, b) && t.node == parent && t.color == ctx0.color && rotations == 0
  {
    Siblings(s0, ctx0, t0, b0);
    if (tmp.left == null || tmp.left.color == Black) && (tmp.right == null || tmp.right.color == Black) {
      s, t, b := ClimbLeft(h, tmp, s0, ctx0, t0, b0);
      done, rotations := false, 0;
    } else {
      s, t, rotations := RestoreLeft(h, parent, tmp, s0, ctx0, t0, b0);
      b := UpHeight(ctx0, b0 + 1);
      done := true;
    }
  }

  /** One round of the loop when the short side is the left. Either the tree is whole again (`done`),
      or the short tree has grown by one level. */
  method RoundLeft(h: Head, parent: Elem, ghost s0: Store, ghost ctx0: Ctx, ghost t0: Tree, ghost b0: nat)
    returns (done: bool, ghost s: Store, ghost ctx: Ctx, ghost t: Tree, ghost b: nat, ghost rotations: nat)
    requires Holds(h, s0) && Zip(s0, ctx0, t0) && Short(ctx0, t0, b0) && !IsRed(t0)
    requires ctx0.InLeft? && parent == ctx0.node
    modifies h`root, s0.mem.Keys`left, s0.mem.Keys`right, s0.mem.Keys`parent, s0.mem.Keys`color
    ensures Holds(h, s) && s.mem.Keys == s0.mem.Keys
    ensures Zip(s, ctx, t) && t.Bin? && Flat(ctx, t) == Flat(ctx0, t0)
    ensures done ==> Fits(ctx, t, b) && (ctx.Top? ==> !IsRed(t)) && rotations <= 3
    ensures !done ==> Short(ctx, t, b) && t.node == parent && (rotations == 0 || (rotations == 1 && IsRed(t)))
    ensures !done ==> Depth(ctx) < Depth(ctx0) || (Depth(ctx) == Depth(ctx0) && IsRed(t))
  {
    hide Rep, RepCtx, Zip, Short, Fits, Nodes, CtxNodes, Flat, InOrder;
    var tmp;
    ghost var first, later;
    tmp, s, ctx, first := BlackSiblingLeft(h, parent, s0, ctx0, t0, b0);
    done, s, t, b, later := SettleLeft(h, parent, tmp, s, ctx, t0, b0);
    ctx := ctx.up;
    rotations := first + later;
  }

  /** `tmp`, the sibling on the left, black: turned if it was red. */
  method BlackSiblingRight(h: Head, parent: Elem, ghost s0: Store, ghost ctx0: Ctx, ghost t: Tree, ghost b: nat)
    returns (tmp: Elem, ghost s: Store, ghost ctx: Ctx, ghost rotations: nat)
    requires Holds(h, s0) && Zip(s0, ctx0, t) && Short(ctx0, t, b)
    requires ctx0.InRight? && parent == ctx0.node
    modifies h`root, s0.mem.Keys`left, s0.mem.Keys`right, s0.mem.Keys`parent, s0.mem.Keys`color
    ensures Holds(h, s) && s.mem.Keys == s0.mem.Keys
    ensures Zip(s, ctx, t) && Short(ctx, t, b) && Flat(ctx, t) == Flat(ctx0, t)
    ensures ctx.InRight? && ctx.node == parent && !IsRed(ctx.left) && tmp == Root(ctx.left)
    ensures if rotations == 0 then ctx == ctx0 else rotations == 1 && ctx.color == Red && Depth(ctx) == Depth(ctx0) + 1
  {
    Siblings(s0, ctx0, t, b);
    s, ctx, rotations := s0, ctx0, 0;
    tmp := parent.left;
    if tmp.color == Red {
      tmp, s, ctx := TurnRedSiblingRight(h, parent, tmp, s, ctx, t, b);
      rotations := 1;
    }
  }

  /** A black sibling on the left with a red child: every condition is restored. */
  method RestoreRight(h: Head, parent: Elem, tmp0: Elem, ghost s0: Store, ghost ctx0: Ctx, ghost t0: Tree, ghost b: nat)
    returns (ghost s: Store, ghost t: Tree, ghost rotations: nat)
    requires Holds(h, s0) && Zip(s0, ctx0, t0) && Short(ctx0, t0, b) && !IsRed(t0)
    requires ctx0.InRight? && parent == ctx0.node && ctx0.left.Bin? && !IsRed(ctx0.left) && tmp0 == ctx0.left.node
    requires IsRed(ctx0.left.right) || IsRed(ctx0.left.left)
    modifies h`root, s0.mem.Keys`left, s0.mem.Keys`right, s0.mem.Keys`parent, s0.mem.Keys`color
    ensures Holds(h, s) && s.mem.Keys == s0.mem.Keys
    ensures Zip(s, ctx0.up, t) && t.Bin? && Flat(ctx0.up, t) == Flat(ctx0, t0)
    ensures Fits(ctx0.up, t, UpHeight(ctx0, b + 1)) && (ctx0.up.Top? ==> !IsRed(t)) && rotations <= 2
  {
    ghost var ctx := ctx0;
    s, rotations := s0, 0;
    Siblings(s, ctx, t0, b);
    var tmp := tmp0;
    if tmp.left == null || tmp.left.color == Black {
      tmp, s, ctx := TurnInnerNephewRight(h, parent, tmp, s, ctx, t0, b);
      rotations := rotations + 1;
    }
    s, t := FinishRight(h, parent, tmp, s, ctx, t0, b);
    rotations := rotations + 1;
  }

  /** A black sibling on the left with black children is painted red. */
  method ClimbRight(h: Head, tmp: Elem, ghost s0: Store, ghost ctx0: Ctx, ghost t0: Tree, ghost b0: nat)
    returns (ghost s: Store, ghost t: Tree, ghost b: nat)
    requires Holds(h, s0) && Zip(s0, ctx0, t0) && Short(ctx0, t0, b0) && !IsRed(t0)
    requires ctx0.InRight? && ctx0.left.Bin? && !IsRed(ctx0.left) && tmp == ctx0.left.node
    requires !IsRed(ctx0.left.right) && !IsRed(ctx0.left.left)
    modifies s0.mem.Keys`left, s0.mem.Keys`right, s0.mem.Keys`parent, s0.mem.Keys`color
    ensures Holds(h, s) && s.mem.Keys == s0.mem.Keys
    ensures Zip(s, ctx0.up, t) && Flat(ctx0.up, t) == Flat(ctx0, t0)
    ensures Short(ctx0.up, t, b) && t.Bin? && t.node == ctx0.node && t.color == ctx0.color
  {
    ClimbRightOk(ctx0, t0, b0);
    Siblings(s0, ctx0, t0, b0);
    s := PaintSibling(h, tmp, Red, s0, ctx0, t0);
    t := Bin(Redden(ctx0.left), ctx0.node, ctx0.color, t0);
    b := if ctx0.color == Red then b0 else b0 + 1;
  }

  /** The rest of a round, with a black sibling on the left. */
  method SettleRight(h: Head, parent: Elem, tmp: Elem, ghost s0: Store, ghost ctx0: Ctx, ghost t0: Tree, ghost b0: nat)
    returns (done: bool, ghost s: Store, ghost t: Tree, ghost b: nat, ghost rotations: nat)
    requires Holds(h, s0) && Zip(s0, ctx0, t0) && Short(ctx0, t0, b0) && !IsRed(t0)
    requires ctx0.InRight? && parent == ctx0.node && !IsRed(ctx0.left) && tmp == Root(ctx0.left)
    modifies h`root, s0.mem.Keys`left, s0.mem.Keys`right, s0.mem.Keys`parent, s0.mem.Keys`color
    ensures Holds(h, s) && s.mem.Keys == s0.mem.Keys
    ensures Zip(s, ctx0.up, t) && t.Bin? && Flat(ctx0.up, t) == Flat(ctx0, t0)
    ensures done ==> Fits(ctx0.up, t, b) && (ctx0.up.Top? ==> !IsRed(t)) && rotations <= 2
    ensures !done ==> Short(ctx0.up, t, b) && t.node == parent && t.color == ctx0.color && rotations == 0
  {
    Siblings(s0, ctx0, t0, b0);
    if (tmp.left == null || tmp.left.color == Black) && (tmp.right == null || tmp.right.color == Black) {
      s, t, b := ClimbRight(h, tmp, s0, ctx0, t0, b0);
      done, rotations := false, 0;
    } else {
      s, t, rotations := RestoreRight(h, parent, tmp, s0, ctx0, t0, b0);
      b := UpHeight(ctx0, b0 + 1);
      done := true;
    }
  }

  /** One round of the loop when the short side is the right. Either the tree is whole again (`done`),
      or the short tree has grown by one level. */
  method RoundRight(h: Head, parent: Elem, ghost s0: Store, ghost ctx0: Ctx, ghost t0: Tree, ghost b0: nat)
    returns (done: bool, ghost s: Store, ghost ctx: Ctx, ghost t: Tree, ghost b: nat, ghost rotations: nat)
    requires Holds(h, s0) && Zip(s0, ctx0, t0) && Short(ctx0, t0, b0) && !IsRed(t0)
    requires ctx0.InRight? && parent == ctx0.node
    modifies h`root, s0.mem.Keys`left, s0.mem.Keys`right, s0.mem.Keys`parent, s0.mem.Keys`color
    ensures Holds(h, s) && s.mem.Keys == s0.mem.Keys
    ensures Zip(s, ctx, t) && t.Bin? && Flat(ctx, t) == Flat(ctx0, t0)
    ensures done ==> Fits(ctx, t, b) && (ctx.Top? ==> !IsRed(t)) && rotations <= 3
    ensures !done ==> Short(ctx, t, b) && t.node == parent && (rotations == 0 || (rotations == 1 && IsRed(t)))
    ensures !done ==> Depth(ctx) < Depth(ctx0) || (Depth(ctx) == Depth(ctx0) && IsRed(t))
  {
    hide Rep, RepCtx, Zip, Short, Fits, Nodes, CtxNodes, Flat, InOrder;
    var tmp;
    ghost var first, later;
    tmp, s, ctx, first := BlackSiblingRight(h, parent, s0, ctx0, t0, b0);
    done, s, t, b, later := SettleRight(h, parent, tmp, s, ctx, t0, b0);
    ctx := ctx.up;
    rotations := first + later;
  }

  /** Below the top of the tree the hole is never the root. */
  lemma {:induction false} NotRoot(s: Store, ctx: Ctx, hole: Elem?)
    requires RepCtx(s, ctx, hole)
    ensures ctx.Top? ==> s.root == hole
    ensures !ctx.Top? ==> s.root in CtxNodes(ctx)
  {
    if ctx.Top? {
    } else {
      NotRoot(s, ctx.up, ctx.node);
    }
  }

  /** What the loop guard and the choice of the side read. */
  lemma {:induction false} Guard(s: Store, ctx: Ctx, t: Tree, b: nat)
    requires Zip(s, ctx, t) && Short(ctx, t, b)
    ensures t.Bin? ==> t.node in s.mem && s.mem[t.node].color == t.color && s.mem[t.node].parent == Parent(ctx)
    ensures Root(t) == s.root <==> ctx.Top?
    ensures !ctx.Top? ==> ctx.node in s.mem && (s.mem[ctx.node].left == Root(t) <==> ctx.InLeft?)
  {
    NotRoot(s, ctx, Root(t));
    CtxFields(s, ctx, Root(t));
    if t.Bin? {
      Fields(s, ctx, t);
    }
    if ctx.InRight? {
      assert ctx.left.Bin?;
      Across(s, ctx, t);
      Fields(s, Other(ctx, t), ctx.left);
    }
  }

  /** `if (elm) RB_COLOR(elm) = RB_BLACK` makes up for the missing black node. */
  method BlackenTop(h: Head, elm: Elem?, ghost s0: Store, ghost ctx: Ctx, ghost t: Tree, ghost b: nat)
    returns (ghost s: Store, ghost shape: Tree)
    requires Holds(h, s0) && Zip(s0, ctx, t) && elm == Root(t) && Fits(ctx, Blacken(t), b)
    modifies s0.mem.Keys`left, s0.mem.Keys`right, s0.mem.Keys`parent, s0.mem.Keys`color
    ensures Holds(h, s) && s.mem.Keys == s0.mem.Keys
    ensures Zip(s, Top, shape) && RedBlack(shape) && InOrder(shape) == Flat(ctx, t)
  {
    s := s0;
    if elm != null {
      Fields(s, ctx, t);
      s := Paint(h, elm, Black, s, ctx, t);
    }
    ghost var t' := Blacken(t);
    PlugFits(ctx, t', b);
    PlugZip(s, ctx, t');
    PlugInOrder(ctx, t');
    assert InOrder(t') == InOrder(t);
    shape := Plug(ctx, t');
  }

  /** One round of the loop. */
  method Round(h: Head, parent: Elem, elm: Elem?, ghost s0: Store, ghost ctx0: Ctx, ghost t0: Tree, ghost b0: nat)
    returns (done: bool, ghost s: Store, ghost ctx: Ctx, ghost t: Tree, ghost b: nat, ghost rotations: nat)
    requires Holds(h, s0) && Zip(s0, ctx0, t0) && Short(ctx0, t0, b0) && !IsRed(t0)
    requires !ctx0.Top? && parent == ctx0.node && elm == Root(t0)
    modifies h`root, s0.mem.Keys`left, s0.mem.Keys`right, s0.mem.Keys`parent, s0.mem.Keys`color
    ensures Holds(h, s) && s.mem.Keys == s0.mem.Keys
    ensures Zip(s, ctx, t) && t.Bin? && Flat(ctx, t) == Flat(ctx0, t0)
    ensures done ==> Fits(ctx, t, b) && (ctx.Top? ==> !IsRed(t)) && rotations <= 3
    ensures !done ==> Short(ctx, t, b) && t.node == parent && (rotations == 0 || (rotations == 1 && IsRed(t)))
    ensures !done ==> Depth(ctx) < Depth(ctx0) || (Depth(ctx) == Depth(ctx0) && IsRed(t))
  {
    hide Rep, RepCtx, Zip, Short, Fits, Nodes, CtxNodes, Flat, InOrder;
    Guard(s0, ctx0, t0, b0);
    if parent.left == elm {
      done, s, ctx, t, b, rotations := RoundLeft(h, parent, s0, ctx0, t0, b0);
    } else {
      done, s, ctx, t, b, rotations := RoundRight(h, parent, s0, ctx0, t0, b0);
    }
  }

  /** `RB_REMOVE_COLOR`: at most three rotations, because the one for a red sibling leaves a red parent
      and with it the last round. */
  method RemoveColor(h: Head, parent0: Elem?, elm0: Elem?, ghost s0: Store, ghost ctx0: Ctx, ghost t0: Tree,
      ghost b0: nat)
    returns (ghost s: Store, ghost shape: Tree, ghost rotations: nat, ghost rounds: nat)
    requires Holds(h, s0) && Zip(s0, ctx0, t0) && Short(ctx0, t0, b0)
    requires parent0 == Parent(ctx0) && elm0 == Root(t0)
    modifies h`root, s0.mem.Keys`left, s0.mem.Keys`right, s0.mem.Keys`parent, s0.mem.Keys`color
    ensures Holds(h, s) && s.mem.Keys == s0.mem.Keys
    ensures Zip(s, Top, shape) && RedBlack(shape) && InOrder(shape) == Flat(ctx0, t0)
    ensures rotations <= 3 && rounds <= Depth(ctx0) + 1
  {
    hide Rep, RepCtx, Zip, Short, Fits, Nodes, CtxNodes, Flat, InOrder;
    var parent, elm := parent0, elm0;
    ghost var ctx, t, b, more := ctx0, t0, b0, 0;
    s, rotations, rounds := s0, 0, 0;
    Guard(s, ctx, t, b);
    while (elm == null || elm.color == Black) && elm != h.root
      invariant Holds(h, s) && s.mem.Keys == s0.mem.Keys
      invariant Zip(s, ctx, t) && Short(ctx, t, b) && elm == Root(t) && parent == Parent(ctx)
      invariant Flat(ctx, t) == Flat(ctx0, t0)
      invariant rotations == 0 || (rotations == 1 && IsRed(t))
      invariant rounds + Depth(ctx) <= Depth(ctx0) + if IsRed(t) then 1 else 0
      decreases Depth(ctx), if IsRed(t) then 0 else 1
    {
      Guard(s, ctx, t, b);
      var done;
      done, s, ctx, t, b, more := Round(h, parent, elm, s, ctx, t, b);
      rotations, rounds := rotations + more, rounds + 1;
      if done {
        elm, s, shape := WholeAgain(h, s, ctx, t, b);
        return;
      }
      Guard(s, ctx, t, b);
      elm := parent;
      parent := elm.parent;
    }
    Guard(s, ctx, t, b);
    LoopEnds(ctx, t, b);
    s, shape := BlackenTop(h, elm, s, ctx, t, if IsRed(t) then b + 1 else b);
  }

  /** At a red node, or at the root, black paint ends the shortage. */
  lemma {:induction false} LoopEnds(ctx: Ctx, t: Tree, b: nat)
    requires Short(ctx, t, b) && (IsRed(t) || ctx.Top?)
    ensures Fits(ctx, Blacken(t), if IsRed(t) then b + 1 else b)
  {
  }

  /** `elm = RB_ROOT(head)` after the final rotation, and the paint that follows the loop. */
  method WholeAgain(h: Head, ghost s0: Store, ghost ctx: Ctx, ghost t: Tree, ghost b: nat)
    returns (elm: Elem?, ghost s: Store, ghost shape: Tree)
    requires Holds(h, s0) && Zip(s0, ctx, t) && Fits(ctx, t, b) && (ctx.Top? ==> !IsRed(t))
    modifies s0.mem.Keys`left, s0.mem.Keys`right, s0.mem.Keys`parent, s0.mem.Keys`color
    ensures Holds(h, s) && s.mem.Keys == s0.mem.Keys
    ensures Zip(s, Top, shape) && RedBlack(shape) && InOrder(shape) == Flat(ctx, t)
  {
    elm := h.root;
    PlugFits(ctx, t, b);
    PlugZip(s0, ctx, t);
    PlugInOrder(ctx, t);
    ghost var whole := Plug(ctx, t);
    s, shape := BlackenTop(h, elm, s0, Top, whole, BlackHeight(whole));
  }
}
