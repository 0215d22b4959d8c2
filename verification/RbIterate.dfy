/** `RB_NEXT`, `RB_PREV` and the loops built on them. */
module RbIterate {
  import opened Order
  import opened Entries
  import Sequences
  import opened RbShape
  import opened RbBalance
  import opened RbStore
  import opened RbTree
  import opened RbSearch
  import opened RbTour
  import opened RbRemove

  lemma {:induction false} FirstOf(t: Tree)
    requires t.Bin?
    ensures First(InOrder(t)) == if t.left.Nil? then t.node else First(InOrder(t.left))
    ensures InOrder(t) != []
  {
    if t.left.Nil? {
    } else {
      FirstOf(t.left);
    }
  }

  lemma {:induction false} LastOf(t: Tree)
    requires t.Bin?
    ensures Last(InOrder(t)) == if t.right.Nil? then t.node else Last(InOrder(t.right))
    ensures InOrder(t) != []
  {
    if t.right.Nil? {
    } else {
      LastOf(t.right);
    }
  }

  /** Which child of its parent the node at the top of the hole is. */
  lemma {:induction false} Sides(s: Store, ctx: Ctx, t: Tree)
    requires Zip(s, ctx, t) && t.Bin?
    ensures t.node in s.mem && s.mem[t.node].parent == Parent(ctx)
    ensures !ctx.Top? ==> ctx.node in s.mem
    ensures !ctx.Top? ==> (s.mem[ctx.node].left == t.node <==> ctx.InLeft?)
    ensures !ctx.Top? ==> (s.mem[ctx.node].right == t.node <==> ctx.InRight?)
  {
    Fields(s, ctx, t);
    CtxFields(s, ctx, t.node);
  }

  lemma {:induction false} Nearest(cmp: Compare, ctx: Ctx, t: Tree, i: nat)
    requires TotalOrder(cmp) && Sorted(cmp, Keys(Flat(ctx, t))) && t.Bin? && Get(Flat(ctx, t), i) == t.node
    ensures i == Place(ctx, t)
    ensures Get(Flat(ctx, t), i + 1) == if t.right.Nil? then First(After(ctx)) else First(InOrder(t.right))
    ensures Get(Flat(ctx, t), i - 1) == if t.left.Nil? then Last(Before(ctx)) else Last(InOrder(t.left))
  {
    var l, r := Before(ctx) + InOrder(t.left), InOrder(t.right) + After(ctx);
    FlatParts(ctx, t);
    Neighbours(l, t.node, r);
    Distinct(cmp, Flat(ctx, t), i, |l|);
    EndsOf(Before(ctx), t.left, t.right, After(ctx));
  }

  lemma {:induction false} EndsOf(a: seq<Elem>, l: Tree, r: Tree, b: seq<Elem>)
    ensures First(InOrder(r) + b) == if r.Nil? then First(b) else First(InOrder(r))
    ensures Last(a + InOrder(l)) == if l.Nil? then Last(a) else Last(InOrder(l))
  {
    if r.Bin? {
      FirstOf(r);
    }
    if l.Bin? {
      LastOf(l);
    }
  }

  /** The place of the node with index `i`. Its neighbours are the nearest nodes below it or, where a
      child is missing, the nearest nodes around the hole. */
  lemma {:induction false} Seek(h: Head, elm: Elem, i: nat) returns (ctx: Ctx, t: Tree, b: nat)
    requires Valid(h) && Get(Elements(h), i) == elm
    ensures Zip(h.store, ctx, t) && t.Bin? && t.node == elm
    ensures Plug(ctx, t) == h.shape && Place(ctx, t) == i && Flat(ctx, t) == Elements(h)
    ensures Fits(ctx, t, b) && (ctx.Top? ==> !IsRed(t))
    ensures Get(Elements(h), i + 1) == if t.right.Nil? then First(After(ctx)) else First(InOrder(t.right))
    ensures Get(Elements(h), i - 1) == if t.left.Nil? then Last(Before(ctx)) else Last(InOrder(t.left))
  {
    FlatTop(h.shape);
    ctx, t, b := Focus(h.store, Top, h.shape, BlackHeight(h.shape), elm);
    Nearest(h.cmp, ctx, t, i);
  }

  lemma {:induction false} FlatParts(ctx: Ctx, t: Tree)
    requires t.Bin?
    ensures Flat(ctx, t) == (Before(ctx) + InOrder(t.left)) + [t.node] + (InOrder(t.right) + After(ctx))
  {
  }

  /** The leftmost node of a subtree. */
  method DescendLeft(top: Elem, ghost h: Head, ghost s: Store, ghost ctx0: Ctx, ghost t0: Tree)
    returns (elm: Elem, ghost links: nat)
    requires Holds(h, s) && Zip(s, ctx0, t0) && t0.Bin? && t0.node == top
    ensures elm == First(InOrder(t0)) && links == LeftSpine(t0)
  {
    ghost var ctx, t := ctx0, t0;
    elm, links := top, 0;
    Fields(s, ctx, t);
    while elm.left != null
      invariant Zip(s, ctx, t) && t.Bin? && elm == t.node && elm.left == Root(t.left)
      invariant First(InOrder(t)) == First(InOrder(t0)) && links + LeftSpine(t) == LeftSpine(t0)
      decreases t
    {
      elm := elm.left;
      links := links + 1;
      DownLeft(s, ctx, t);
      FirstOf(t);
      ctx, t := InLeft(ctx, t.node, t.color, t.right), t.left;
      Fields(s, ctx, t);
    }
    FirstOf(t);
  }

  /** The first node after the hole: climbs as long as it comes from the right. */
  method ClimbFromRight(top: Elem, ghost h: Head, ghost s: Store, ghost ctx0: Ctx, ghost t0: Tree)
    returns (r: Elem?, ghost links: nat)
    requires Holds(h, s) && Zip(s, ctx0, t0) && t0.Bin? && t0.node == top
    ensures r == First(After(ctx0)) && links == ClimbNext(ctx0)
  {
    ghost var ctx, t := ctx0, t0;
    var elm := top;
    links := 0;
    Sides(s, ctx, t);
    while elm.parent != null && elm == elm.parent.right
      invariant Zip(s, ctx, t) && t.Bin? && elm == t.node && elm.parent == Parent(ctx)
      invariant elm.parent != null ==> (elm == elm.parent.right <==> ctx.InRight?)
      invariant After(ctx) == After(ctx0) && links + ClimbNext(ctx) == ClimbNext(ctx0)
      decreases Depth(ctx)
    {
      elm := elm.parent;
      links := links + 1;
      Up(s, ctx, t);
      ctx, t := ctx.up, Grow(ctx, t);
      Sides(s, ctx, t);
    }
    r := elm.parent;
    links := links + if r != null then 1 else 0;
  }

  /** The links to the next node: within the bound, and what they add to a tour of the tree. */
  lemma {:induction false} NextCount(ctx: Ctx, t: Tree, b: nat, r: Elem?, links: nat)
    requires t.Bin? && Fits(ctx, t, b) && (ctx.Top? ==> !IsRed(t)) && links == NextLinks(ctx, t)
    requires r == Get(Flat(ctx, t), Place(ctx, t) + 1)
    ensures WithinBound(links, |Flat(ctx, t)|)
    ensures var shape, i := Plug(ctx, t), Place(ctx, t);
      && (if r != null then i + 1 < |InOrder(shape)| else i < |InOrder(shape)|)
      && links == if r != null then Lean(shape, i + 1) + 2 - Lean(shape, i) else -Lean(shape, i)
  {
    NextLean(ctx, t);
    PlugInOrder(ctx, t);
    GetSome(Flat(ctx, t), Place(ctx, t) + 1);
    LinksDepth(ctx, t);
    DepthBound(ctx, t, b, links);
  }

  lemma {:induction false} PrevCount(ctx: Ctx, t: Tree, b: nat, r: Elem?, links: nat)
    requires t.Bin? && Fits(ctx, t, b) && (ctx.Top? ==> !IsRed(t)) && links == PrevLinks(ctx, t)
    requires r == Get(Flat(ctx, t), Place(ctx, t) - 1)
    ensures WithinBound(links, |Flat(ctx, t)|)
    ensures var shape, i := Plug(ctx, t), Place(ctx, t);
      && (r != null ==> i > 0) && i < |InOrder(shape)|
      && links == if r != null then Lean(shape, i) + 2 - Lean(shape, i - 1) else Lean(shape, i)
  {
    PrevLean(ctx, t);
    PlugInOrder(ctx, t);
    GetSome(Flat(ctx, t), Place(ctx, t) - 1);
    LinksDepth(ctx, t);
    DepthBound(ctx, t, b, links);
  }

  /** The body of `RB_NEXT`, at a place in the tree. */
  method Onward(elm: Elem, ghost h: Head, ghost s: Store, ghost ctx: Ctx, ghost t: Tree)
    returns (r: Elem?, ghost links: nat)
    requires Holds(h, s) && Zip(s, ctx, t) && t.Bin? && t.node == elm
    ensures r == if t.right.Nil? then First(After(ctx)) else First(InOrder(t.right))
    ensures links == NextLinks(ctx, t)
  {
    hide Rep, RepCtx, Nodes, CtxNodes;
    Fields(s, ctx, t);
    Sides(s, ctx, t);
    if elm.right != null {
      DownRight(s, ctx, t);
      r, links := DescendLeft(elm.right, h, s, InRight(ctx, t.left, t.node, t.color), t.right);
      links := links + 1;
    } else {
      if elm.parent != null && elm == elm.parent.left {
        r, links := elm.parent, 1;
      } else {
        r, links := ClimbFromRight(elm, h, s, ctx, t);
      }
    }
  }

  /** `RB_NEXT`: the node at the next index, or null at the last. It follows no more links than the tree is
      high, and exactly two more than the lean of the two nodes differs by. */
  method Next(elm: Elem, ghost h: Head, ghost i: nat) returns (r: Elem?, ghost links: nat)
    requires Valid(h) && Get(Elements(h), i) == elm
    ensures r == Get(Elements(h), i + 1)
    ensures WithinBound(links, |Elements(h)|)
    ensures links == if r != null then Lean(h.shape, i + 1) + 2 - Lean(h.shape, i) else -Lean(h.shape, i)
  {
    hide Rep, RepCtx, Nodes, CtxNodes, WithinBound, Lean, NextLinks, Place;
    ghost var ctx, t, b := Seek(h, elm, i);
    r, links := Onward(elm, h, h.store, ctx, t);
    NextCount(ctx, t, b, r, links);
  }

  /** The rightmost node of a subtree. */
  method DescendRight(top: Elem, ghost h: Head, ghost s: Store, ghost ctx0: Ctx, ghost t0: Tree)
    returns (elm: Elem, ghost links: nat)
    requires Holds(h, s) && Zip(s, ctx0, t0) && t0.Bin? && t0.node == top
    ensures elm == Last(InOrder(t0)) && links == RightSpine(t0)
  {
    ghost var ctx, t := ctx0, t0;
    elm, links := top, 0;
    Fields(s, ctx, t);
    while elm.right != null
      invariant Zip(s, ctx, t) && t.Bin? && elm == t.node && elm.right == Root(t.right)
      invariant Last(InOrder(t)) == Last(InOrder(t0)) && links + RightSpine(t) == RightSpine(t0)
      decreases t
    {
      elm := elm.right;
      links := links + 1;
      DownRight(s, ctx, t);
      LastOf(t);
      ctx, t := InRight(ctx, t.left, t.node, t.color), t.right;
      Fields(s, ctx, t);
    }
    LastOf(t);
  }

  /** The last node before the hole: climbs as long as it comes from the left. */
  method ClimbFromLeft(top: Elem, ghost h: Head, ghost s: Store, ghost ctx0: Ctx, ghost t0: Tree)
    returns (r: Elem?, ghost links: nat)
    requires Holds(h, s) && Zip(s, ctx0, t0) && t0.Bin? && t0.node == top
    ensures r == Last(Before(ctx0)) && links == ClimbPrev(ctx0)
  {
    ghost var ctx, t := ctx0, t0;
    var elm := top;
    links := 0;
    Sides(s, ctx, t);
    while elm.parent != null && elm == elm.parent.left
      invariant Zip(s, ctx, t) && t.Bin? && elm == t.node && elm.parent == Parent(ctx)
      invariant elm.parent != null ==> (elm == elm.parent.left <==> ctx.InLeft?)
      invariant Before(ctx) == Before(ctx0) && links + ClimbPrev(ctx) == ClimbPrev(ctx0)
      decreases Depth(ctx)
    {
      elm := elm.parent;
      links := links + 1;
      Up(s, ctx, t);
      ctx, t := ctx.up, Grow(ctx, t);
      Sides(s, ctx, t);
    }
    r := elm.parent;
    links := links + if r != null then 1 else 0;
  }

  /** The body of `RB_PREV`, at a place in the tree. */
  method Backward(elm: Elem, ghost h: Head, ghost s: Store, ghost ctx: Ctx, ghost t: Tree)
    returns (r: Elem?, ghost links: nat)
    requires Holds(h, s) && Zip(s, ctx, t) && t.Bin? && t.node == elm
    ensures r == if t.left.Nil? then Last(Before(ctx)) else Last(InOrder(t.left))
    ensures links == PrevLinks(ctx, t)
  {
    hide Rep, RepCtx, Nodes, CtxNodes;
    Fields(s, ctx, t);
    Sides(s, ctx, t);
    if elm.left != null {
      DownLeft(s, ctx, t);
      r, links := DescendRight(elm.left, h, s, InLeft(ctx, t.node, t.color, t.right), t.left);
      links := links + 1;
    } else {
      if elm.parent != null && elm == elm.parent.right {
        r, links := elm.parent, 1;
      } else {
        r, links := ClimbFromLeft(elm, h, s, ctx, t);
      }
    }
  }

  /** `RB_PREV`: the node at the previous index, or null at the first. */
  method Prev(elm: Elem, ghost h: Head, ghost i: nat) returns (r: Elem?, ghost links: nat)
    requires Valid(h) && Get(Elements(h), i) == elm
    ensures r == Get(Elements(h), i - 1)
    ensures WithinBound(links, |Elements(h)|)
    ensures links == if r != null then Lean(h.shape, i) + 2 - Lean(h.shape, i - 1) else Lean(h.shape, i)
  {
    hide Rep, RepCtx, Nodes, CtxNodes, WithinBound, Lean, PrevLinks, Place;
    ghost var ctx, t, b := Seek(h, elm, i);
    r, links := Backward(elm, h, h.store, ctx, t);
    PrevCount(ctx, t, b, r, links);
  }

  /** Going on and going back undo each other, away from the ends. */
  method NextThenPrev(elm: Elem, ghost h: Head, ghost i: nat) returns (r: Elem?)
    requires Valid(h) && Get(Elements(h), i) == elm && i + 1 < |Elements(h)|
    ensures r == elm
  {
    hide Zip, RedBlack, Sorted, TotalOrder;
    var n;
    ghost var links;
    n, links := Next(elm, h, i);
    r, links := Prev(n, h, i + 1);
  }

  method PrevThenNext(elm: Elem, ghost h: Head, ghost i: nat) returns (r: Elem?)
    requires Valid(h) && Get(Elements(h), i) == elm && i > 0
    ensures r == elm
  {
    hide Zip, RedBlack, Sorted, TotalOrder;
    var p;
    ghost var links;
    p, links := Prev(elm, h, i);
    r, links := Next(p, h, i - 1);
  }

  // ---------- the loops ----------

  /** The links followed until the loop is at the node with index `i`, or past the last one. */
  ghost predicate Touring(shape: Tree, i: nat, links: nat) {
    var n := |InOrder(shape)|;
    links == if i < n then 2 * i + Lean(shape, i) else if n == 0 then 0 else 2 * (n - 1)
  }

  lemma {:induction false} TourStart(shape: Tree, steps: nat)
    requires steps == EndSteps(shape, -1)
    ensures Touring(shape, 0, if shape.Nil? then 0 else steps - 1)
  {
    if shape.Bin? {
      LeanEnds(shape);
    }
  }

  lemma {:induction false} TourStep(shape: Tree, i: nat, links: nat, more: nat)
    requires i < |InOrder(shape)| && Touring(shape, i, links)
    requires more == if i + 1 < |InOrder(shape)| then Lean(shape, i + 1) + 2 - Lean(shape, i) else -Lean(shape, i)
    ensures Touring(shape, i + 1, links + more)
  {
  }

  /** One round of the loop: the body sees `x`, and the loop goes on with its successor. */
  method VisitNext(h: Head, x: Elem, seen: seq<Elem>, ghost all: seq<Elem>, ghost links0: nat)
    returns (y: Elem?, visited: seq<Elem>, ghost links: nat)
    requires Valid(h) && all == Elements(h) && |seen| <= |all| && seen == all[..|seen|] && x == Get(all, |seen|)
    requires Touring(h.shape, |seen|, links0)
    ensures |seen| < |all| && |visited| == |seen| + 1 && visited == all[..|visited|] && y == Get(all, |visited|)
    ensures Touring(h.shape, |visited|, links)
  {
    hide Zip, RedBlack, Sorted, TotalOrder, Lean, Touring, WithinBound;
    ghost var more;
    visited := Visit(seen, x, all);
    y, more := Next(x, h, |seen|);
    links := links0 + more;
    TourStep(h.shape, |seen|, links0, more);
  }

  /** `RB_FOREACH`: the nodes the body sees, in turn. Together with the way to the first node the loop
      follows every link of the tree exactly twice. */
  method Foreach(h: Head) returns (visited: seq<Elem>, ghost links: nat)
    requires Valid(h)
    ensures visited == Elements(h)
    ensures var n := |Elements(h)|; links == if n == 0 then 0 else 2 * (n - 1)
  {
    hide Lean, WithinBound, Sorted;
    visited := [];
    ghost var all := Elements(h);
    var x;
    ghost var steps;
    x, steps := MinMax(h, -1);
    links := if h.shape.Nil? then 0 else steps - 1;
    TourStart(h.shape, steps);
    FirstAt(all);
    while x != null
      invariant |visited| <= |all| && visited == all[..|visited|]
      invariant x == Get(all, |visited|) && Touring(h.shape, |visited|, links)
      decreases |all| - |visited|
    {
      x, visited, links := VisitNext(h, x, visited, all, links);
    }
    AllVisited(visited, all);
  }

  /** Between two rounds of the reverse loop: `x` is the next node, counted from the end. */
  ghost predicate Behind(all: seq<Elem>, visited: seq<Elem>, x: Elem?) {
    && |visited| <= |all| && visited == Sequences.Reversed(all)[..|visited|]
    && x == Get(all, |all| - 1 - |visited|)
  }

  lemma {:induction false} BehindStart(all: seq<Elem>)
    ensures Behind(all, [], Last(all))
  {
  }

  lemma {:induction false} BehindEnd(all: seq<Elem>, visited: seq<Elem>)
    requires Behind(all, visited, null)
    ensures visited == Sequences.Reversed(all)
  {
  }

  /** The links followed until the reverse loop is at the node with index `i`, or before the first one. */
  ghost predicate TouringBack(shape: Tree, i: int, links: nat) {
    var n := |InOrder(shape)|;
    links == if 0 <= i < n then 2 * (n - 1 - i) - Lean(shape, i) else if n == 0 then 0 else 2 * (n - 1)
  }

  lemma {:induction false} TourBackStart(shape: Tree, steps: nat)
    requires steps == EndSteps(shape, 1)
    ensures TouringBack(shape, |InOrder(shape)| - 1, if shape.Nil? then 0 else steps - 1)
  {
    if shape.Bin? {
      LeanEnds(shape);
    }
  }

  lemma {:induction false} TourBackStep(shape: Tree, i: nat, links: nat, more: nat)
    requires i < |InOrder(shape)| && TouringBack(shape, i, links)
    requires more == if i > 0 then Lean(shape, i) + 2 - Lean(shape, i - 1) else Lean(shape, i)
    ensures TouringBack(shape, i - 1, links + more)
  {
  }

  /** One round of the reverse loop. */
  method VisitBack(h: Head, x: Elem, seen: seq<Elem>, ghost all: seq<Elem>, ghost links0: nat)
    returns (y: Elem?, visited: seq<Elem>, ghost links: nat)
    requires Valid(h) && all == Elements(h) && Behind(all, seen, x)
    requires TouringBack(h.shape, |all| - 1 - |seen|, links0)
    ensures Behind(all, visited, y) && |seen| < |visited| <= |all|
    ensures TouringBack(h.shape, |all| - 1 - |visited|, links)
  {
    hide Zip, RedBlack, Sorted, TotalOrder, Lean, TouringBack, WithinBound;
    ghost var i, more := |all| - 1 - |seen|, 0;
    ReversedAt(all, i);
    visited := Visit(seen, x, Sequences.Reversed(all));
    y, more := Prev(x, h, i);
    links := links0 + more;
    TourBackStep(h.shape, i, links0, more);
  }

  /** `RB_FOREACH_REVERSE`. */
  method ForeachReverse(h: Head) returns (visited: seq<Elem>, ghost links: nat)
    requires Valid(h)
    ensures visited == Sequences.Reversed(Elements(h))
    ensures var n := |Elements(h)|; links == if n == 0 then 0 else 2 * (n - 1)
  {
    hide Lean, WithinBound, Sorted;
    visited := [];
    ghost var all := Elements(h);
    var x;
    ghost var steps;
    x, steps := MinMax(h, 1);
    links := if h.shape.Nil? then 0 else steps - 1;
    TourBackStart(h.shape, steps);
    BehindStart(all);
    while x != null
      invariant Behind(all, visited, x) && TouringBack(h.shape, |all| - 1 - |visited|, links)
      decreases |all| - |visited|
    {
      x, visited, links := VisitBack(h, x, visited, all, links);
    }
    BehindEnd(all, visited);
  }

  /** The nodes of `s` that `drop` does not choose. */
  function Kept(s: seq<Elem>, drop: Elem -> bool): seq<Elem> {
    if s == [] then [] else Kept(s[..|s| - 1], drop) + if drop(s[|s| - 1]) then [] else [s[|s| - 1]]
  }

  /** One more node of `all` has been visited. */
  lemma {:induction false} KeptStep(all: seq<Elem>, n: nat, drop: Elem -> bool)
    requires n < |all|
    ensures Kept(all[..n + 1], drop) == Kept(all[..n], drop) + if drop(all[n]) then [] else [all[n]]
    ensures Get(Kept(all[..n], drop) + all[n..], |Kept(all[..n], drop)|) == all[n]
    ensures Get(Kept(all[..n], drop) + all[n..], |Kept(all[..n], drop)| + 1) == Get(all, n + 1)
    ensures !drop(all[n]) ==> Kept(all[..n + 1], drop) + all[n + 1..] == Kept(all[..n], drop) + all[n..]
  {
    assert all[..n + 1][..n] == all[..n];
    assert all[n..] == [all[n]] + all[n + 1..];
  }

  /** The node to drop stands where the kept nodes end, so taking it out leaves the rest in place. */
  lemma {:induction false} DropStep(cmp: Compare, all: seq<Elem>, n: nat, drop: Elem -> bool, at: nat, s': seq<Elem>)
    requires n < |all| && drop(all[n])
    requires var s := Kept(all[..n], drop) + all[n..];
      TotalOrder(cmp) && Sorted(cmp, Keys(s)) && TakeOut(s, at, all[n], s')
    ensures s' == Kept(all[..n + 1], drop) + all[n + 1..]
  {
    var k := Kept(all[..n], drop);
    KeptStep(all, n, drop);
    Distinct(cmp, k + all[n..], at, |k|);
  }

  lemma {:induction false} KeptNone(all: seq<Elem>, drop: Elem -> bool)
    ensures Kept(all[..0], drop) + all[0..] == all
  {
  }

  /** Between two rounds: the nodes dropped so far are gone, all others are in place. */
  ghost predicate Progress(h: Head, x: Elem?, all: seq<Elem>, visited: seq<Elem>, drop: Elem -> bool)
    reads h, h.store.mem.Keys`left, h.store.mem.Keys`right, h.store.mem.Keys`parent, h.store.mem.Keys`color
  {
    && Valid(h)
    && |visited| <= |all| && visited == all[..|visited|]
    && Elements(h) == Kept(visited, drop) + all[|visited|..]
    && x == Get(all, |visited|)
  }

  /** One round of the loop below: the body sees `x`, and the loop goes on with the saved successor. */
  method VisitSafe(h: Head, x: Elem, drop: Elem -> bool, seen: seq<Elem>, ghost all: seq<Elem>)
    returns (y: Elem?, visited: seq<Elem>)
    requires Progress(h, x, all, seen, drop)
    modifies h, h.store.mem.Keys`left, h.store.mem.Keys`right, h.store.mem.Keys`parent, h.store.mem.Keys`color
    ensures Progress(h, y, all, visited, drop) && h.store.mem.Keys <= old(h.store.mem.Keys)
    ensures |visited| == |seen| + 1
  {
    ghost var n, now, cmp := |seen|, Elements(h), h.cmp;
    KeptStep(all, n, drop);
    ghost var links;
    y, links := Next(x, h, |Kept(seen, drop)|);
    visited := Visit(seen, x, all);
    if drop(x) {
      assert x in now;
      assert TotalOrder(cmp) && Sorted(cmp, Keys(now));
      ghost var r, at, rotations, steps, rounds := Remove(h, x);
      DropStep(cmp, all, n, drop, at, Elements(h));
    }
  }

  lemma {:induction false} Finished(h: Head, all: seq<Elem>, visited: seq<Elem>, drop: Elem -> bool)
    requires Progress(h, null, all, visited, drop)
    ensures visited == all && Elements(h) == Kept(all, drop)
  {
    assert all[|all|..] == [];
  }

  /** `RB_FOREACH_SAFE` with a body that removes the nodes chosen by `drop`. The successor is saved
      before the body runs; it stays the right one because a removal relinks nodes and copies no keys. */
  method ForeachSafe(h: Head, drop: Elem -> bool) returns (visited: seq<Elem>)
    requires Valid(h)
    modifies h, h.store.mem.Keys`left, h.store.mem.Keys`right, h.store.mem.Keys`parent, h.store.mem.Keys`color
    ensures Valid(h)
    ensures visited == old(Elements(h))
    ensures Elements(h) == Kept(old(Elements(h)), drop)
  {
    visited := [];
    ghost var all, ks := Elements(h), h.store.mem.Keys;
    var x;
    ghost var steps;
    x, steps := MinMax(h, -1);
    KeptNone(all, drop);
    while x != null
      invariant Progress(h, x, all, visited, drop) && h.store.mem.Keys <= ks
      decreases |all| - |visited|
    {
      x, visited := VisitSafe(h, x, drop, visited, all);
    }
    Finished(h, all, visited, drop);
  }

  // ---------- the safe loop backwards ----------

  lemma {:induction false} KeptCons(s: seq<Elem>, drop: Elem -> bool)
    requires s != []
    ensures Kept(s, drop) == (if drop(s[0]) then [] else [s[0]]) + Kept(s[1..], drop)
  {
    var k := |s| - 1;
    if k == 0 {
      assert s[..0] == [] && s[1..] == [];
    } else {
      KeptCons(s[..k], drop);
      assert s[..k][1..] == s[1..][..k - 1];
    }
  }

  /** The node before the `m` last ones is visited. */
  lemma {:induction false} KeptBackStep(all: seq<Elem>, m: nat, drop: Elem -> bool)
    requires m < |all|
    ensures Kept(all[m..], drop) == (if drop(all[m]) then [] else [all[m]]) + Kept(all[m + 1..], drop)
    ensures Get(all[..m + 1] + Kept(all[m + 1..], drop), m) == all[m]
    ensures Get(all[..m + 1] + Kept(all[m + 1..], drop), m - 1) == Get(all, m - 1)
    ensures !drop(all[m]) ==> all[..m] + Kept(all[m..], drop) == all[..m + 1] + Kept(all[m + 1..], drop)
  {
    KeptCons(all[m..], drop);
    assert all[m..][1..] == all[m + 1..];
    assert all[..m + 1] == all[..m] + [all[m]];
  }

  lemma {:induction false} DropBackStep(cmp: Compare, all: seq<Elem>, m: nat, drop: Elem -> bool, at: nat,
      s': seq<Elem>)
    requires m < |all| && drop(all[m])
    requires var s := all[..m + 1] + Kept(all[m + 1..], drop);
      TotalOrder(cmp) && Sorted(cmp, Keys(s)) && TakeOut(s, at, all[m], s')
    ensures s' == all[..m] + Kept(all[m..], drop)
  {
    KeptBackStep(all, m, drop);
    Distinct(cmp, all[..m + 1] + Kept(all[m + 1..], drop), at, m);
  }

  /** Between two rounds: `m` nodes are still to come, and those dropped so far are gone. */
  ghost predicate ProgressBack(h: Head, x: Elem?, all: seq<Elem>, visited: seq<Elem>, m: nat, drop: Elem -> bool)
    reads h, h.store.mem.Keys`left, h.store.mem.Keys`right, h.store.mem.Keys`parent, h.store.mem.Keys`color
  {
    && Valid(h)
    && m == |all| - |visited| && Behind(all, visited, x)
    && Elements(h) == all[..m] + Kept(all[m..], drop)
  }

  /** One round of the loop below. */
  method VisitSafeBack(h: Head, x: Elem, drop: Elem -> bool, seen: seq<Elem>, ghost all: seq<Elem>, ghost m: nat)
    returns (y: Elem?, visited: seq<Elem>)
    requires ProgressBack(h, x, all, seen, m, drop)
    modifies h, h.store.mem.Keys`left, h.store.mem.Keys`right, h.store.mem.Keys`parent, h.store.mem.Keys`color
    ensures m > 0 && ProgressBack(h, y, all, visited, m - 1, drop)
    ensures h.store.mem.Keys <= old(h.store.mem.Keys)
  {
    hide Lean, WithinBound, Kept;
    ghost var now, cmp, links := Elements(h), h.cmp, 0;
    Ordered(h);
    ReversedAt(all, m - 1);
    KeptBackStep(all, m - 1, drop);
    y, links := Prev(x, h, m - 1);
    visited := Visit(seen, x, Sequences.Reversed(all));
    if drop(x) {
      assert x in now;
      ghost var r, at, rotations, steps, rounds := Remove(h, x);
      DropBackStep(cmp, all, m - 1, drop, at, Elements(h));
    }
  }

  lemma {:induction false} StartedBack(h: Head, x: Elem?, all: seq<Elem>, drop: Elem -> bool)
    requires Valid(h) && all == Elements(h) && x == Last(all)
    ensures ProgressBack(h, x, all, [], |all|, drop)
  {
    BehindStart(all);
    assert all[|all|..] == [] && all[..|all|] + [] == all;
  }

  lemma {:induction false} FinishedBack(h: Head, all: seq<Elem>, visited: seq<Elem>, m: nat, drop: Elem -> bool)
    requires ProgressBack(h, null, all, visited, m, drop)
    ensures Valid(h) && visited == Sequences.Reversed(all) && Elements(h) == Kept(all, drop)
  {
    BehindEnd(all, visited);
    assert all[..0] + Kept(all[0..], drop) == Kept(all, drop) by { assert all[0..] == all; }
  }

  /** `RB_FOREACH_REVERSE_SAFE` with a body that removes the nodes chosen by `drop`. */
  method ForeachReverseSafe(h: Head, drop: Elem -> bool) returns (visited: seq<Elem>)
    requires Valid(h)
    modifies h, h.store.mem.Keys`left, h.store.mem.Keys`right, h.store.mem.Keys`parent, h.store.mem.Keys`color
    ensures Valid(h)
    ensures visited == Sequences.Reversed(old(Elements(h)))
    ensures Elements(h) == Kept(old(Elements(h)), drop)
  {
    hide ProgressBack, Kept, EndSteps, WithinBound;
    visited := [];
    ghost var all, ks, m := Elements(h), h.store.mem.Keys, |Elements(h)|;
    var x;
    ghost var steps;
    x, steps := MinMax(h, 1);
    StartedBack(h, x, all, drop);
    while x != null
      invariant m >= 0 && ProgressBack(h, x, all, visited, m, drop) && h.store.mem.Keys <= ks
      decreases m
    {
      x, visited := VisitSafeBack(h, x, drop, visited, all, m);
      m := m - 1;
    }
    FinishedBack(h, all, visited, m, drop);
  }
}
