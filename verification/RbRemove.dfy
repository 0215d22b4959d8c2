/** `RB_REMOVE`: taking a node out, by itself or by putting its successor in its place. */
module RbRemove {
  import opened Order
  import opened Entries
  import opened RbShape
  import opened RbBalance
  import opened RbStore
  import opened RbRotate
  import opened RbTree
  import opened RbSearch
  import opened RbRemoveColor

  // ---------- contexts put together ----------

  /** The context `path` placed in the hole of `base`. */
  ghost function Append(base: Ctx, path: Ctx): Ctx {
    match path
    case Top => base
    case InLeft(up, n, c, r) => InLeft(Append(base, up), n, c, r)
    case InRight(up, l, n, c) => InRight(Append(base, up), l, n, c)
  }

  /** A path that only goes left. */
  ghost predicate Leftward(path: Ctx) {
    path.Top? || (path.InLeft? && Leftward(path.up))
  }

  lemma {:induction false} AppendSides(base: Ctx, path: Ctx)
    requires Leftward(path)
    ensures Before(Append(base, path)) == Before(base)
    ensures After(Append(base, path)) == After(path) + After(base)
  {
    if path.Top? {
    } else {
      AppendSides(base, path.up);
    }
  }

  /** What holds below `base` along `path` holds of the tree that the path ends in. */
  lemma {:induction false} FoldPath(s: Store, base: Ctx, path: Ctx, t: Tree)
    requires Zip(s, Append(base, path), t)
    ensures Zip(s, base, Plug(path, t))
    decreases path
  {
    if path.Top? {
    } else {
      Up(s, Append(base, path), t);
      FoldPath(s, base, path.up, Grow(path, t));
    }
  }

  lemma {:induction false} UnfoldPath(s: Store, base: Ctx, path: Ctx, t: Tree)
    requires Zip(s, base, Plug(path, t))
    ensures Zip(s, Append(base, path), t)
    decreases path
  {
    if path.Top? {
    } else {
      UnfoldPath(s, base, path.up, Grow(path, t));
      if path.InLeft? {
        DownLeft(s, Append(base, path.up), Grow(path, t));
      } else {
        DownRight(s, Append(base, path.up), Grow(path, t));
      }
    }
  }

  lemma {:induction false} PathNodes(base: Ctx, path: Ctx, t: Tree, n: Elem)
    requires n !in CtxNodes(Append(base, path)) && n !in Nodes(t)
    ensures n !in CtxNodes(base) && n !in Nodes(Plug(path, t))
    decreases path
  {
    if path.Top? {
    } else {
      PathNodes(base, path.up, Grow(path, t), n);
    }
  }

  /** The colour conditions do not depend on which node sits where. */
  lemma {:induction false} Rename(up: Ctx, l: Tree, x: Elem, y: Elem, c: Color, path: Ctx, b: nat)
    requires CtxRB(Append(InRight(up, l, x, c), path), b)
    ensures CtxRB(Append(InRight(up, l, y, c), path), b)
    decreases path
  {
    if path.Top? {
    } else {
      Rename(up, l, x, y, c, path.up, UpHeight(path, b));
      assert path.up.Top? || Append(InRight(up, l, y, c), path.up).color == path.up.color;
    }
  }

  // ---------- unlinking a node with at most one child ----------

  /** `child` takes the place of `x` below its parent. */
  method Unlink(h: Head, x: Elem, child: Elem?, parent: Elem?, ghost s0: Store, ghost ctx: Ctx, ghost t: Tree,
      ghost c: Tree)
    returns (ghost s: Store)
    requires Holds(h, s0) && Zip(s0, ctx, t) && t.Bin? && t.node == x && parent == Parent(ctx)
    requires (t.left.Nil? && c == t.right) || (t.right.Nil? && c == t.left)
    requires child == Root(c)
    modifies h`root, Opt(child)`parent, Opt(parent)`left, Opt(parent)`right
    ensures Holds(h, s) && s.mem.Keys == s0.mem.Keys && Zip(s, ctx, c)
    ensures x in s.mem && s.mem[x] == s0.mem[x] && x !in CtxNodes(ctx) && x !in Nodes(c)
  {
    ghost var s1 := Adopt(h, child, parent, s0, c, x);
    if c.Bin? {
      KeepCtx(s0, c.node, s1.mem[c.node], ctx, x);
    }
    s := Relink(h, parent, x, child, s1, ctx);
    if parent != null {
      Keep(s1.mem, parent, s.mem[parent], c, parent);
    }
  }

  // ---------- the successor takes the node's place ----------

  /** `(elm)->field = (old)->field`. */
  method CopyFields(h: Head, elm: Elem, old_: Elem, ghost s: Store) returns (ghost s': Store)
    requires Holds(h, s) && elm in s.mem && old_ in s.mem
    modifies elm`left, elm`right, elm`parent, elm`color
    ensures Holds(h, s') && s' == Set(s, elm, s.mem[old_]) && s'.mem.Keys == s.mem.Keys
  {
    elm.left, elm.right, elm.parent, elm.color := old_.left, old_.right, old_.parent, old_.color;
    s' := Set(s, elm, s.mem[old_]);
  }

  /** `elm` takes over the fields of `old_` and the link that leads to it. */
  method MoveIn(h: Head, elm: Elem, old_: Elem, ghost s0: Store, ghost ctx: Ctx, ghost l: Tree, ghost r: Tree)
    returns (ghost s: Store)
    requires Holds(h, s0) && RepCtx(s0, ctx, old_) && Rep(s0.mem, l, old_) && Rep(s0.mem, r, old_)
    requires elm in s0.mem && elm !in CtxNodes(ctx) && elm !in Nodes(l) && elm !in Nodes(r) && elm != old_
    requires old_ in s0.mem && s0.mem[old_].parent == Parent(ctx) && old_ !in CtxNodes(ctx)
    requires CtxNodes(ctx) !! Nodes(l) && CtxNodes(ctx) !! Nodes(r)
    modifies h`root, s0.mem.Keys`left, s0.mem.Keys`right, s0.mem.Keys`parent, s0.mem.Keys`color
    ensures Holds(h, s) && s.mem.Keys == s0.mem.Keys && RepCtx(s, ctx, elm)
    ensures s.mem[elm] == s0.mem[old_] && s.mem[old_] == s0.mem[old_]
    ensures Rep(s.mem, l, old_) && Rep(s.mem, r, old_)
  {
    ghost var p := Parent(ctx);
    CtxFields(s0, ctx, old_);
    ghost var s1 := CopyFields(h, elm, old_, s0);
    KeepBoth(s0, elm, s1.mem[elm], ctx, old_, l, old_, r, old_);
    s := Relink(h, old_.parent, old_, elm, s1, ctx);
    if p != null {
      Keep(s1.mem, p, s.mem[p], l, old_);
      Keep(s1.mem, p, s.mem[p], r, old_);
    }
  }

  /** `elm`, a node outside the tree, takes the place and the colour of `old_`. */
  method Replace(h: Head, elm: Elem, old_: Elem, ghost s0: Store, ghost ctx: Ctx, ghost t: Tree)
    returns (ghost s: Store)
    requires Holds(h, s0) && Zip(s0, ctx, t) && t.Bin? && t.node == old_ && t.left.Bin?
    requires elm in s0.mem && elm !in CtxNodes(ctx) && elm !in Nodes(t)
    modifies h`root, s0.mem.Keys`left, s0.mem.Keys`right, s0.mem.Keys`parent, s0.mem.Keys`color
    ensures Holds(h, s) && s.mem.Keys == s0.mem.Keys && Zip(s, ctx, t.(node := elm))
  {
    hide CtxNodes, RepCtx;
    ghost var l, r := t.left, t.right;
    Fields(s0, ctx, t);
    ghost var s2 := MoveIn(h, elm, old_, s0, ctx, l, r);
    ghost var s3 := Adopt(h, old_.left, elm, s2, l, old_);
    KeepBoth(s2, l.node, s3.mem[l.node], ctx, elm, r, old_, r, old_);
    s := Adopt(h, old_.right, elm, s3, r, old_);
    if r.Bin? {
      KeepBoth(s3, r.node, s.mem[r.node], ctx, elm, l, elm, l, elm);
    }
    Join(s.mem, l, elm, t.color, r, Parent(ctx));
  }

  // ---------- the node sequence ----------

  /** Forgetting a node that is not in the tree. */
  lemma {:induction false} Forget(s: Store, n: Elem, t: Tree, p: Elem?)
    requires Rep(s.mem, t, p) && n !in Nodes(t)
    ensures Rep(s.mem - {n}, t, p)
  {
    if t.Nil? {
    } else {
      Forget(s, n, t.left, t.node);
      Forget(s, n, t.right, t.node);
    }
  }

  // ---------- removal ----------

  /** The place of a node of the tree. */
  lemma {:induction false} Focus(s: Store, ctx: Ctx, t: Tree, b: nat, elm: Elem) returns (ctx': Ctx, t': Tree, b': nat)
    requires Zip(s, ctx, t) && Fits(ctx, t, b) && (ctx.Top? ==> !IsRed(t)) && elm in InOrder(t)
    ensures Zip(s, ctx', t') && Fits(ctx', t', b') && (ctx'.Top? ==> !IsRed(t'))
    ensures t'.Bin? && t'.node == elm && Flat(ctx', t') == Flat(ctx, t) && Plug(ctx', t') == Plug(ctx, t)
    decreases t
  {
    if t.node == elm {
      ctx', t', b' := ctx, t, b;
    } else {
      FitsDown(ctx, t, b);
      var d := if t.color == Red then b else b - 1;
      if elm in InOrder(t.left) {
        var l := InLeft(ctx, t.node, t.color, t.right);
        DownLeft(s, ctx, t);
        FlatUp(l, t.left);
        ctx', t', b' := Focus(s, l, t.left, d, elm);
      } else {
        var r := InRight(ctx, t.left, t.node, t.color);
        DownRight(s, ctx, t);
        FlatUp(r, t.right);
        ctx', t', b' := Focus(s, r, t.right, d, elm);
      }
    }
  }

  /** The part from the label `color` on. */
  method FixUp(h: Head, color: Color, parent: Elem?, child: Elem?, ghost s0: Store, ghost ctx: Ctx, ghost c: Tree,
      ghost b: nat)
    returns (ghost s: Store, ghost shape: Tree, ghost rotations: nat, ghost rounds: nat)
    requires Holds(h, s0) && Zip(s0, ctx, c) && parent == Parent(ctx) && child == Root(c)
    requires color == Black ==> Short(ctx, c, b)
    requires color == Red ==> Fits(ctx, c, b) && (ctx.Top? ==> !IsRed(c))
    modifies h`root, s0.mem.Keys`left, s0.mem.Keys`right, s0.mem.Keys`parent, s0.mem.Keys`color
    ensures Holds(h, s) && s.mem.Keys == s0.mem.Keys
    ensures Zip(s, Top, shape) && RedBlack(shape) && InOrder(shape) == Flat(ctx, c)
    ensures rotations <= 3 && rounds <= Depth(ctx) + 1
  {
    if color == Black {
      s, shape, rotations, rounds := RemoveColor(h, parent, child, s0, ctx, c, b);
    } else {
      PlugFits(ctx, c, b);
      PlugZip(s0, ctx, c);
      PlugInOrder(ctx, c);
      s, shape, rotations, rounds := s0, Plug(ctx, c), 0, 0;
    }
  }

  /** Taking out a node of a fitting tree leaves its only child fitting, or short if the node was black. */
  lemma {:induction false} OneChild(ctx: Ctx, t: Tree, b: nat, c: Tree)
    requires Fits(ctx, t, b) && t.Bin? && ((t.left.Nil? && c == t.right) || (t.right.Nil? && c == t.left))
    requires ctx.Top? ==> !IsRed(t)
    ensures if t.color == Black then b > 0 && Short(ctx, c, b - 1) else Fits(ctx, c, b)
  {
    assert t.color == Black ==> RB(c, b - 1);
  }

  lemma {:induction false} OneChildFlat(ctx: Ctx, t: Tree, c: Tree)
    requires t.Bin? && ((t.left.Nil? && c == t.right) || (t.right.Nil? && c == t.left))
    ensures TakeOut(Flat(ctx, t), |Before(ctx) + InOrder(t.left)|, t.node, Flat(ctx, c))
  {
    var a, b := Before(ctx) + InOrder(t.left), InOrder(t.right) + After(ctx);
    TakeOutBetween(a, t.node, b);
    assert Flat(ctx, t) == a + [t.node] + b;
    if t.left.Nil? {
      assert a == Before(ctx);
      assert Flat(ctx, c) == a + b;
    } else {
      assert b == After(ctx);
      assert Flat(ctx, c) == a + b;
    }
  }

  /** The removed node has at most one child. */
  method RemoveOuter(h: Head, elm: Elem, child: Elem?, ghost s0: Store, ghost ctx: Ctx, ghost t: Tree, ghost b: nat,
      ghost c: Tree)
    returns (ghost s: Store, ghost shape: Tree, ghost rotations: nat, ghost rounds: nat)
    requires Holds(h, s0) && Zip(s0, ctx, t) && Fits(ctx, t, b) && (ctx.Top? ==> !IsRed(t)) && t.Bin? && t.node == elm
    requires (t.left.Nil? && c == t.right) || (t.right.Nil? && c == t.left)
    requires child == Root(c)
    modifies h`root, s0.mem.Keys`left, s0.mem.Keys`right, s0.mem.Keys`parent, s0.mem.Keys`color
    ensures Holds(h, s) && s.mem.Keys == s0.mem.Keys
    ensures Zip(s, Top, shape) && RedBlack(shape) && InOrder(shape) == Flat(ctx, c)
    ensures rotations <= 3 && rounds <= Depth(ctx) + 1
  {
    OneChild(ctx, t, b, c);
    Fields(s0, ctx, t);
    var parent, color := elm.parent, elm.color;
    assert Opt(child) <= s0.mem.Keys by {
      if c.Bin? { assert Rep(s0.mem, c, elm); }
    }
    assert Opt(parent) <= s0.mem.Keys by { CtxFields(s0, ctx, elm); }
    s := Unlink(h, elm, child, parent, s0, ctx, t, c);
    s, shape, rotations, rounds := FixUp(h, color, parent, child, s, ctx, c, if color == Black then b - 1 else b);
  }

  /** The leftmost node of the tree below `base`, where the descent for the successor ends. */
  method Successor(h: Head, top: Elem, ghost s: Store, ghost base: Ctx, ghost t0: Tree, ghost b0: nat)
    returns (elm: Elem, ghost path: Ctx, ghost t: Tree, ghost b: nat, ghost steps: nat)
    requires Holds(h, s) && Zip(s, base, t0) && Fits(base, t0, b0) && t0.Bin? && t0.node == top && !base.Top?
    ensures Leftward(path) && Zip(s, Append(base, path), t) && Fits(Append(base, path), t, b)
    ensures t.Bin? && t.left.Nil? && t.node == elm && Flat(Append(base, path), t) == Flat(base, t0)
    ensures steps <= Depth(Append(base, path))
  {
    elm := top;
    path, t, b, steps := Top, t0, b0, 0;
    Fields(s, base, t);
    var left := elm.left;
    while left != null
      invariant Leftward(path) && Zip(s, Append(base, path), t) && Fits(Append(base, path), t, b)
      invariant t.Bin? && t.node == elm && left == elm.left == Root(t.left)
      invariant Flat(Append(base, path), t) == Flat(base, t0)
      invariant steps <= Depth(Append(base, path))
      decreases t
    {
      ghost var ctx := Append(base, path);
      DownLeft(s, ctx, t);
      FitsDown(ctx, t, b);
      FlatUp(InLeft(ctx, t.node, t.color, t.right), t.left);
      elm := left;
      steps := steps + 1;
      b := if t.color == Red then b else b - 1;
      path, t := InLeft(path, t.node, t.color, t.right), t.left;
      Fields(s, Append(base, path), t);
      left := elm.left;
    }
  }

  /** The context below the node `n`, which has the place of the top of `t`, on its right. */
  ghost function Below(ctx: Ctx, t: Tree, n: Elem): Ctx
    requires t.Bin?
  {
    InRight(ctx, t.left, n, t.color)
  }

  /** The successor is unlinked from the end of its path and put in the place of `old_`. */
  method StandIn(h: Head, old_: Elem, elm: Elem, child: Elem?, parent: Elem, ghost s0: Store, ghost ctx: Ctx,
      ghost t: Tree, ghost path: Ctx, ghost succ: Tree)
    returns (ghost s: Store)
    requires Holds(h, s0) && t.Bin? && t.node == old_ && t.left.Bin?
    requires Zip(s0, Append(Below(ctx, t, old_), path), succ)
    requires succ.Bin? && succ.node == elm && succ.left.Nil? && child == Root(succ.right)
    requires parent == Parent(Append(Below(ctx, t, old_), path))
    modifies h`root, s0.mem.Keys`left, s0.mem.Keys`right, s0.mem.Keys`parent, s0.mem.Keys`color
    ensures Holds(h, s) && s.mem.Keys == s0.mem.Keys
    ensures Zip(s, Append(Below(ctx, t, elm), path), succ.right)
    ensures old_ in s.mem
  {
    hide Rep;
    ghost var below, rest := Below(ctx, t, old_), succ.right;
    assert old_ in s0.mem && parent in s0.mem && Opt(child) <= s0.mem.Keys by {
      InStore(s0, below, path, succ);
    }
    s := Unlink(h, elm, child, parent, s0, Append(below, path), succ, rest);
    FoldPath(s, below, path, rest);
    PathNodes(below, path, rest, elm);
    ghost var t1 := Bin(t.left, old_, t.color, Plug(path, rest));
    Up(s, below, Plug(path, rest));
    s := Replace(h, elm, old_, s, ctx, t1);
    DownRight(s, ctx, t1.(node := elm));
    UnfoldPath(s, Below(ctx, t, elm), path, rest);
  }

  lemma {:induction false} InStore(s: Store, base: Ctx, path: Ctx, t: Tree)
    requires Zip(s, Append(base, path), t) && t.Bin? && !base.Top?
    ensures base.node in s.mem && Parent(Append(base, path)) in s.mem && t.node in s.mem
    ensures Opt(Root(t.right)) <= s.mem.Keys
  {
    Fields(s, Append(base, path), t);
    CtxFields(s, Append(base, path), t.node);
    FoldPath(s, base, path, t);
    CtxFields(s, base, Root(Plug(path, t)));
    if t.right.Bin? {
      assert Rep(s.mem, t.right, t.node);
    }
  }

  lemma {:induction false} StandInFlat(ctx: Ctx, t: Tree, path: Ctx, succ: Tree)
    requires t.Bin? && succ.Bin? && succ.left.Nil? && Leftward(path)
    ensures var a := Before(ctx) + InOrder(t.left);
      TakeOut(Flat(Append(Below(ctx, t, t.node), path), succ), |a|, t.node,
              Flat(Append(Below(ctx, t, succ.node), path), succ.right))
  {
    var a, x, y := Before(ctx) + InOrder(t.left), t.node, succ.node;
    var r, w := InOrder(succ.right), After(path) + After(ctx);
    AppendSides(Below(ctx, t, x), path);
    AppendSides(Below(ctx, t, y), path);
    Regroup(a, x, y, r, w);
    assert InOrder(succ.left) == [];
    assert Flat(Append(Below(ctx, t, x), path), succ) == a + [x] + ([y] + (r + w));
    assert Flat(Append(Below(ctx, t, y), path), succ.right) == a + ([y] + (r + w));
    TakeOutBetween(a, x, [y] + (r + w));
  }

  lemma {:induction false} Regroup(a: seq<Elem>, x: Elem, y: Elem, r: seq<Elem>, w: seq<Elem>)
    ensures (a + [x]) + ([] + [y] + r) + w == a + [x] + ([y] + (r + w))
    ensures (a + [y]) + r + w == a + ([y] + (r + w))
  {
  }

  lemma {:induction false} StandInFits(ctx: Ctx, t: Tree, path: Ctx, succ: Tree, b: nat)
    requires t.Bin? && succ.Bin? && succ.left.Nil?
    requires Fits(Append(Below(ctx, t, t.node), path), succ, b)
    ensures var c := Append(Below(ctx, t, succ.node), path);
      if succ.color == Black then b > 0 && Short(c, succ.right, b - 1) else Fits(c, succ.right, b)
  {
    OneChild(Append(Below(ctx, t, t.node), path), succ, b, succ.right);
    Rename(ctx, t.left, t.node, succ.node, t.color, path, b);
    assert CtxRed(Append(Below(ctx, t, t.node), path)) == CtxRed(Append(Below(ctx, t, succ.node), path));
  }

  /** The parent of the place the successor left, once the successor has moved. */
  lemma {:induction false} ParentAfter(s: Store, ctx: Ctx, t: Tree, path: Ctx, succ: Tree)
    requires t.Bin? && succ.Bin? && Leftward(path) && Zip(s, Append(Below(ctx, t, t.node), path), succ)
    ensures Parent(Append(Below(ctx, t, succ.node), path)) ==
      if Parent(Append(Below(ctx, t, t.node), path)) == t.node then succ.node
        else Parent(Append(Below(ctx, t, t.node), path))
  {
    if path.InLeft? {
      InSpine(Below(ctx, t, t.node), path.up);
      assert path.node !in CtxNodes(Append(Below(ctx, t, t.node), path.up));
    }
  }

  lemma {:induction false} InSpine(base: Ctx, path: Ctx)
    requires !base.Top?
    ensures base.node in CtxNodes(Append(base, path))
    decreases path
  {
    if path.Top? {
    } else {
      InSpine(base, path.up);
    }
  }

  lemma {:induction false} SameDepth(ctx: Ctx, t: Tree, n: Elem, path: Ctx)
    requires t.Bin?
    ensures Depth(Append(Below(ctx, t, n), path)) == Depth(Append(Below(ctx, t, t.node), path))
    decreases path
  {
    if path.Top? {
    } else {
      SameDepth(ctx, t, n, path.up);
    }
  }

  /** The removed node has two children. */
  method RemoveInner(h: Head, old_: Elem, ghost s0: Store, ghost ctx: Ctx, ghost t: Tree, ghost b: nat)
    returns (ghost s: Store, ghost shape: Tree, ghost rotations: nat, ghost steps: nat, ghost rounds: nat)
    requires Holds(h, s0) && Zip(s0, ctx, t) && Fits(ctx, t, b) && (ctx.Top? ==> !IsRed(t))
    requires t.Bin? && t.node == old_ && t.left.Bin? && t.right.Bin?
    modifies h`root, s0.mem.Keys`left, s0.mem.Keys`right, s0.mem.Keys`parent, s0.mem.Keys`color
    ensures Holds(h, s) && s.mem.Keys == s0.mem.Keys
    ensures Zip(s, Top, shape) && RedBlack(shape)
    ensures TakeOut(Flat(ctx, t), |Before(ctx) + InOrder(t.left)|, old_, InOrder(shape))
    ensures rotations <= 3 && WithinBound(steps, |Flat(ctx, t)|) && WithinBound(rounds, |Flat(ctx, t)|)
  {
    hide WithinBound, Rep, RepCtx, RB, CtxRB, Nodes, CtxNodes, InOrder;
    ghost var below := Below(ctx, t, old_);
    Fields(s0, ctx, t);
    DownRight(s0, ctx, t);
    FitsDown(ctx, t, b);
    FlatUp(below, t.right);
    ghost var path, succ, d;
    var elm;
    elm, path, succ, d, steps := Successor(h, old_.right, s0, below, t.right, if t.color == Red then b else b - 1);
    Fields(s0, Append(below, path), succ);
    var child, parent, color := elm.right, elm.parent, elm.color;
    ParentAfter(s0, ctx, t, path, succ);
    StandInFits(ctx, t, path, succ, d);
    StandInFlat(ctx, t, path, succ);
    s := StandIn(h, old_, elm, child, parent, s0, ctx, t, path, succ);
    if parent == old_ {
      parent := elm;
    }
    SameDepth(ctx, t, elm, path);
    s, shape, rotations, rounds := FixUp(h, color, parent, child, s, Append(Below(ctx, t, elm), path), succ.right,
        if color == Black then d - 1 else d);
    DepthBound(Append(below, path), succ, d, steps);
    DepthBound(Append(below, path), succ, d, rounds);
  }

  /** The three cases of the removal. */
  method TakeOutNode(h: Head, elm: Elem, ghost s0: Store, ghost ctx: Ctx, ghost t: Tree, ghost b: nat)
    returns (ghost s: Store, ghost shape: Tree, ghost rotations: nat, ghost steps: nat, ghost rounds: nat)
    requires Holds(h, s0) && Zip(s0, ctx, t) && Fits(ctx, t, b) && (ctx.Top? ==> !IsRed(t))
    requires t.Bin? && t.node == elm
    modifies h`root, s0.mem.Keys`left, s0.mem.Keys`right, s0.mem.Keys`parent, s0.mem.Keys`color
    ensures Holds(h, s) && s.mem.Keys == s0.mem.Keys
    ensures Zip(s, Top, shape) && RedBlack(shape)
    ensures TakeOut(Flat(ctx, t), |Before(ctx) + InOrder(t.left)|, elm, InOrder(shape))
    ensures rotations <= 3 && WithinBound(steps, |Flat(ctx, t)|) && WithinBound(rounds, |Flat(ctx, t)|)
  {
    hide WithinBound;
    Fields(s0, ctx, t);
    steps := 0;
    DepthBound(ctx, t, b, 0);
    if elm.left == null {
      OneChildFlat(ctx, t, t.right);
      s, shape, rotations, rounds := RemoveOuter(h, elm, elm.right, s0, ctx, t, b, t.right);
      DepthBound(ctx, t, b, rounds);
    } else if elm.right == null {
      OneChildFlat(ctx, t, t.left);
      s, shape, rotations, rounds := RemoveOuter(h, elm, elm.left, s0, ctx, t, b, t.left);
      DepthBound(ctx, t, b, rounds);
    } else {
      s, shape, rotations, steps, rounds := RemoveInner(h, elm, s0, ctx, t, b);
    }
  }

  /** Records in the head what its heap holds now that `elm` is no longer linked. */
  ghost method CommitWithout(h: Head, elm: Elem, s: Store, shape: Tree, all: seq<Elem>, at: nat)
    requires Holds(h, s) && Zip(s, Top, shape) && RedBlack(shape) && Tracks(s.mem, all)
    requires TotalOrder(h.cmp) && Sorted(h.cmp, Keys(all))
    requires TakeOut(all, at, elm, InOrder(shape))
    modifies h`store, h`shape
    ensures Valid(h) && h.shape == shape && h.store == s.(mem := s.mem - {elm})
    ensures h.store.mem.Keys <= s.mem.Keys
  {
    TakeOutSorted(h.cmp, s.mem, all, at, elm, InOrder(shape));
    NodesInOrder(shape);
    Forget(s, elm, shape, null);
    Commit(h, s.(mem := s.mem - {elm}), shape);
  }

  /** The removal of the node at the top of `t`. */
  method RemoveAt(h: Head, elm: Elem, ghost s0: Store, ghost ctx: Ctx, ghost t: Tree, ghost b: nat,
      ghost all: seq<Elem>)
    returns (ghost rotations: nat, ghost steps: nat, ghost rounds: nat)
    requires Holds(h, s0) && Zip(s0, ctx, t) && Fits(ctx, t, b) && (ctx.Top? ==> !IsRed(t))
    requires t.Bin? && t.node == elm && all == Flat(ctx, t)
    requires Tracks(s0.mem, all) && TotalOrder(h.cmp) && Sorted(h.cmp, Keys(all))
    modifies h, s0.mem.Keys`left, s0.mem.Keys`right, s0.mem.Keys`parent, s0.mem.Keys`color
    ensures Valid(h) && rotations <= 3 && WithinBound(steps, |all|) && WithinBound(rounds, |all|)
    ensures TakeOut(all, |Before(ctx) + InOrder(t.left)|, elm, Elements(h))
    ensures h.store.mem.Keys <= s0.mem.Keys
  {
    ghost var s, shape;
    s, shape, rotations, steps, rounds := TakeOutNode(h, elm, s0, ctx, t, b);
    CommitWithout(h, elm, s, shape, all, |Before(ctx) + InOrder(t.left)|);
  }

  /** `RB_REMOVE`. The steps to the successor and the rounds of the fix-up are within the bound for the
      tree as it was. */
  method Remove(h: Head, elm: Elem)
    returns (r: Elem, ghost at: nat, ghost rotations: nat, ghost steps: nat, ghost rounds: nat)
    requires Valid(h) && elm in Elements(h)
    modifies h, h.store.mem.Keys`left, h.store.mem.Keys`right, h.store.mem.Keys`parent, h.store.mem.Keys`color
    ensures Valid(h) && r == elm && rotations <= 3
    ensures WithinBound(steps, |old(Elements(h))|) && WithinBound(rounds, |old(Elements(h))|)
    ensures TakeOut(old(Elements(h)), at, elm, Elements(h))
    ensures h.store.mem.Keys <= old(h.store.mem.Keys)
  {
    hide WithinBound, Rep, RepCtx, Nodes, CtxNodes;
    assert Flat(Top, h.shape) == Elements(h);
    ghost var ctx, t, b := Focus(h.store, Top, h.shape, BlackHeight(h.shape), elm);
    at := |Before(ctx) + InOrder(t.left)|;
    rotations, steps, rounds := RemoveAt(h, elm, h.store, ctx, t, b, Elements(h));
    r := elm;
  }
}
