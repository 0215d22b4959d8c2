/** `SPLAY_MINMAX`, `SPLAY_NEXT` and `SPLAY_FOREACH`, which splay the tree at every step. */
module SplayIterate {
  import opened Order
  import opened Entries
  import opened Power
  import opened SplayStore
  import opened SplayPart
  import opened SplayAccount
  import opened SplayCost
  import opened SplayWalk
  import opened TopDownSplay
  import opened SplayTree

  // ---------- the loop of SPLAY_MINMAX, round by round ----------

  /** The loop: the left side tree, the rest of the tree, the right side tree, and whether it has
      reached a `break`. */
  datatype State = State(l: Side, t: Tree, r: Side, stopped: bool)

  ghost function Leftward(s: State): (s': State)
    requires s.t.Bin?
    ensures s'.t.Bin?
  {
    if s.t.left.Nil? then s.(stopped := true)
    else
      var top := RotR(s.t);
      if top.left.Nil? then State(s.l, top, s.r, true)
      else State(s.l, top.left, Hang(s.r, top.node, top.right), false)
  }

  ghost function Rightward(s: State): (s': State)
    requires s.t.Bin?
    ensures s'.t.Bin?
  {
    if s.t.right.Nil? then s.(stopped := true)
    else
      var top := RotL(s.t);
      if top.right.Nil? then State(s.l, top, s.r, true)
      else State(Hang(s.l, top.node, top.left), top.right, s.r, false)
  }

  /** One round of the loop. */
  ghost function Round(comp: int, s: State): (s': State)
    requires s.t.Bin?
    ensures s'.t.Bin?
  {
    if s.stopped then s
    else if comp < 0 then Leftward(s)
    else if comp > 0 then Rightward(s)
    else s
  }

  /** The loop after `n` rounds on the tree `t`. */
  ghost function LoopState(comp: int, t: Tree, n: nat): (s: State)
    requires t.Bin?
    ensures s.t.Bin?
  {
    if n == 0 then State(End, t, End, false) else Round(comp, LoopState(comp, t, n - 1))
  }

  lemma {:induction false} Stuck(t: Tree, n: nat)
    requires t.Bin?
    ensures LoopState(0, t, n) == State(End, t, End, false)
  {
    if n == 0 {
    } else {
      Stuck(t, n - 1);
    }
  }

  lemma {:induction false} Shrinks(comp: int, t: Tree, n: nat)
    requires t.Bin? && comp != 0 && !LoopState(comp, t, n).stopped
    ensures Size(LoopState(comp, t, n).t) + n <= Size(t) && n < Size(t)
  {
    if n == 0 {
    } else {
      Shrinks(comp, t, n - 1);
    }
  }

  /** The loop ends if and only if its argument is not zero; with zero it goes round for ever, and
      nothing changes. */
  lemma {:induction false} Ends(comp: int, t: Tree)
    requires t.Bin?
    ensures (exists n :: LoopState(comp, t, n).stopped) <==> comp != 0
    ensures comp == 0 ==> forall n :: LoopState(comp, t, n) == LoopState(comp, t, 0)
  {
    if comp == 0 {
      forall n
        ensures LoopState(comp, t, n) == State(End, t, End, false)
      {
        Stuck(t, n);
      }
    } else {
      if !LoopState(comp, t, Size(t)).stopped {
        Shrinks(comp, t, Size(t));
        assert false;
      }
      assert LoopState(comp, t, Size(t)).stopped;
    }
  }

  /** Before its last round the loop has done what a splay to a key at the end of the tree does. */
  lemma {:induction false} LoopOutward(comp: int, t: Tree, k: Key, n: nat)
    requires t.Bin? && comp != 0 && !LoopState(comp, t, n).stopped
    ensures var s := LoopState(comp, t, n);
      Outward(s.l, Part(Always(comp), s.t, k), s.r, n) == Part(Always(comp), t, k)
  {
    if n == 0 {
    } else {
      var s := LoopState(comp, t, n - 1);
      LoopOutward(comp, t, k, n - 1);
      if comp < 0 {
        AccountLeft(Always(comp), s.l, s.t, s.r, k, n - 1);
      } else {
        AccountRight(Always(comp), s.l, s.t, s.r, k, n - 1);
      }
    }
  }

  /** So the whole loop comes to such a splay, in at most one round more than its steps. */
  lemma {:induction false} LoopPart(comp: int, t: Tree, k: Key, n: nat)
    requires t.Bin? && comp != 0 && !LoopState(comp, t, n).stopped && LoopState(comp, t, n + 1).stopped
    ensures var s := LoopState(comp, t, n + 1); Assembled(s.l, s.t, s.r) == Whole(Part(Always(comp), t, k))
    ensures n <= Part(Always(comp), t, k).steps
  {
    var s, s' := LoopState(comp, t, n), LoopState(comp, t, n + 1);
    LoopOutward(comp, t, k, n);
    if s'.t != s.t {
      if comp < 0 {
        AccountLeft(Always(comp), s.l, s.t, s.r, k, n);
      } else {
        AccountRight(Always(comp), s.l, s.t, s.r, k, n);
      }
      AccountEnd(Always(comp), s'.l, s'.t, s'.r, k, n + 1);
    } else {
      AccountEnd(Always(comp), s.l, s.t, s.r, k, n);
    }
  }

  // ---------- SPLAY_MINMAX ----------

  /** With the key infinitely small or large, one side tree stays empty. */
  lemma {:induction false} SteppedEnd(l: Side, t0: Tree, top: Tree, r: Side)
    requires top.Bin? && InOrder(top) == InOrder(t0)
    ensures Flat(l, top, r) == Flat(l, t0, r)
    ensures Flat(l, top.left, Hang(r, top.node, top.right)) == Flat(l, t0, r) && |InOrder(top.left)| < |InOrder(t0)|
    ensures Flat(Hang(l, top.node, top.left), top.right, r) == Flat(l, t0, r) && |InOrder(top.right)| < |InOrder(t0)|
  {
    FlatAt(l, top, r);
  }

  /** The branch of the loop for the minimum. */
  method DownLeft(h: Head, right0: Elem, ghost s0: Store, ghost d: Elem, ghost l: Side, ghost t0: Tree, ghost r0: Side)
    returns (stop: bool, right: Elem, ghost s: Store, ghost t: Tree, ghost r: Side)
    requires Holds(h, s0) && Split(s0, d, l, t0, r0) && t0.Bin? && right0 == Tip(d, r0)
    modifies h`root, s0.mem.Keys`speLeft, s0.mem.Keys`speRight
    ensures Holds(h, s) && s.mem.Keys == s0.mem.Keys && Split(s, d, l, t, r) && t.Bin? && right == Tip(d, r)
    ensures State(l, t, r, stop) == Leftward(State(l, t0, r0, false)) && Flat(l, t, r) == Flat(l, t0, r0)
    ensures if stop then t.left.Nil? else |InOrder(t)| < |InOrder(t0)|
  {
    var tmp := h.root.speLeft;
    if tmp == null {
      stop, right, s, t, r := true, right0, s0, t0, r0;
    } else {
      RotRInOrder(t0);
      SteppedEnd(l, t0, RotR(t0), r0);
      stop, right, s, t, r := StepLeft(h, tmp, true, right0, s0, d, l, t0, r0);
    }
  }

  /** The branch of the loop for the maximum. */
  method DownRight(h: Head, left0: Elem, ghost s0: Store, ghost d: Elem, ghost l0: Side, ghost t0: Tree, ghost r: Side)
    returns (stop: bool, left: Elem, ghost s: Store, ghost l: Side, ghost t: Tree)
    requires Holds(h, s0) && Split(s0, d, l0, t0, r) && t0.Bin? && left0 == Tip(d, l0)
    modifies h`root, s0.mem.Keys`speLeft, s0.mem.Keys`speRight
    ensures Holds(h, s) && s.mem.Keys == s0.mem.Keys && Split(s, d, l, t, r) && t.Bin? && left == Tip(d, l)
    ensures State(l, t, r, stop) == Rightward(State(l0, t0, r, false)) && Flat(l, t, r) == Flat(l0, t0, r)
    ensures if stop then t.right.Nil? else |InOrder(t)| < |InOrder(t0)|
  {
    var tmp := h.root.speRight;
    if tmp == null {
      stop, left, s, l, t := true, left0, s0, l0, t0;
    } else {
      RotLInOrder(t0);
      SteppedEnd(l0, t0, RotL(t0), r);
      stop, left, s, l, t := StepRight(h, tmp, true, left0, s0, d, l0, t0, r);
    }
  }

  /** `SPLAY_MINMAX`: the first node for a negative `comp`, the last for a positive one, becomes the
      root. `n` rounds go by before the last one. */
  method SplayMinMax(h: Head, comp: int, ghost s0: Store, ghost t0: Tree)
    returns (ghost s: Store, ghost shape: Tree, ghost n: nat)
    requires Holds(h, s0) && Tall(s0, t0) && comp != 0
    modifies h`root, s0.mem.Keys`speLeft, s0.mem.Keys`speRight
    ensures Holds(h, s) && s.mem.Keys == s0.mem.Keys && Tall(s, shape)
    ensures InOrder(shape) == InOrder(t0)
    ensures if comp < 0 then shape.left.Nil? else shape.right.Nil?
    ensures !LoopState(comp, t0, n).stopped && LoopState(comp, t0, n + 1).stopped
    ensures var e := LoopState(comp, t0, n + 1); shape == Assembled(e.l, e.t, e.r)
  {
    hide Leftward, Rightward, Split, Flat;
    var node, left, right, stop;
    ghost var l, t, r := End, t0, End;
    node, s := Dummy(h, h.root.key, s0, t0);
    ghost var keys := s.mem.Keys;
    left, right := node, node;
    n := 0;
    FlatEnds(t0);
    while true
      invariant Holds(h, s) && s.mem.Keys == keys && Split(s, node, l, t, r) && t.Bin?
      invariant left == Tip(node, l) && right == Tip(node, r)
      invariant Flat(l, t, r) == InOrder(t0)
      invariant if comp < 0 then l.End? else r.End?
      invariant LoopState(comp, t0, n) == State(l, t, r, false)
      decreases |InOrder(t)|
    {
      if comp < 0 {
        stop, right, s, t, r := DownLeft(h, right, s, node, l, t, r);
      } else if comp > 0 {
        stop, left, s, l, t := DownRight(h, left, s, node, l, t, r);
      }
      if stop {
        break;
      }
      n := n + 1;
    }
    s, shape := Finish(h, node, left, right, s, s0, l, t, r);
  }

  /** `SPLAY_MIN` for a negative `val` and `SPLAY_MAX` for a positive one. */
  method MinMax(h: Head, val: int) returns (r: Elem?, ghost rounds: nat)
    requires Valid(h) && (h.root != null ==> val != 0)
    modifies h, h.store.mem.Keys`speLeft, h.store.mem.Keys`speRight
    ensures Valid(h) && Elements(h) == old(Elements(h)) && h.store.mem.Keys == old(h.store.mem.Keys)
    ensures r == if val < 0 then First(Elements(h)) else Last(Elements(h))
    ensures h.shape == EndSplayed(val, old(h.shape)) && rounds <= EndRounds(val, old(h.shape))
  {
    hide LoopState, Assembled, Part;
    if h.root == null {
      return null, 0;
    }
    ghost var s0, t0 := h.store, h.shape;
    ghost var s, shape;
    s, shape, rounds := SplayMinMax(h, val, s0, t0);
    Accounted(val, t0, shape, rounds);
    rounds := rounds + 1;
    TracksSame(s0.mem, s.mem, InOrder(shape));
    Commit(h, s, shape);
    AtEnd(shape);
    r := h.root;
  }

  lemma {:induction false} Accounted(comp: int, t: Tree, shape: Tree, n: nat)
    requires t.Bin? && comp != 0 && !LoopState(comp, t, n).stopped && LoopState(comp, t, n + 1).stopped
    requires var e := LoopState(comp, t, n + 1); shape == Assembled(e.l, e.t, e.r)
    ensures shape == EndSplayed(comp, t) && n + 1 <= EndRounds(comp, t)
  {
    LoopPart(comp, t, t.node.key, n);
  }

  lemma {:induction false} AtEnd(t: Tree)
    requires t.Bin?
    ensures t.left.Nil? ==> First(InOrder(t)) == t.node
    ensures t.right.Nil? ==> Last(InOrder(t)) == t.node
  {
  }

  // ---------- SPLAY_NEXT ----------

  /** The leftmost node of a subtree. */
  method Leftmost(top: Elem, ghost h: Head, ghost s: Store, ghost t0: Tree) returns (elm: Elem, ghost walked: nat)
    requires Holds(h, s) && Rep(s.mem, t0) && t0.Bin? && t0.node == top
    ensures elm == First(InOrder(t0)) && walked == LeftSpine(t0)
  {
    ghost var t := t0;
    elm, walked := top, 0;
    while elm.speLeft != null
      invariant Rep(s.mem, t) && t.Bin? && elm == t.node
      invariant First(InOrder(t)) == First(InOrder(t0)) && walked + LeftSpine(t) == LeftSpine(t0)
      decreases t
    {
      elm := elm.speLeft;
      walked := walked + 1;
      FirstOf(t);
      t := t.left;
    }
    FirstOf(t);
  }

  lemma {:induction false} AfterRoot(cmp: Compare, t: Tree, elm: Elem, i: nat)
    requires TotalOrder(cmp) && Sorted(cmp, Keys(InOrder(t))) && Parted(cmp, t, elm.key) && Get(InOrder(t), i) == elm
    ensures t.node == elm
    ensures Get(InOrder(t), i + 1) == First(InOrder(t.right))
  {
    assert cmp(elm.key, elm.key) == 0;
    AtRoot(cmp, t, elm.key);
    assert InOrder(t)[i] in InOrder(t);
    var a := InOrder(t.left);
    Neighbours(a, t.node, InOrder(t.right));
    Distinct(cmp, InOrder(t), i, |a|);
  }

  /** `SPLAY_NEXT`: the node at the next index, or null at the last. The rounds of the splay are those of
      the account; after it `walked` links are followed. */
  method Next(h: Head, elm: Elem, ghost i: nat) returns (r: Elem?, ghost rounds: nat, ghost walked: nat)
    requires Valid(h) && Get(Elements(h), i) == elm
    modifies h, h.store.mem.Keys`speLeft, h.store.mem.Keys`speRight
    ensures Valid(h) && Elements(h) == old(Elements(h)) && h.store.mem.Keys == old(h.store.mem.Keys)
    ensures r == Get(Elements(h), i + 1)
    ensures h.shape == Splayed(h.cmp, old(h.shape), elm.key)
    ensures Rounds(h.cmp, old(h.shape), elm.key) - 1 <= rounds <= Rounds(h.cmp, old(h.shape), elm.key)
    ensures walked == Walk(h.shape) && (r != null ==> h.shape.Bin? && First(InOrder(h.shape.right)) == r)
    ensures r == null ==> walked == 0
  {
    rounds := SplayTo(h, elm);
    AfterRoot(h.cmp, h.shape, elm, i);
    if elm.speRight != null {
      r, walked := Leftmost(elm.speRight, h, h.store, h.shape.right);
      walked := walked + 1;
    } else {
      r, walked := null, 0;
    }
  }

  lemma {:induction false} OneTimeMore(i: nat, n: nat)
    ensures (i + 1) * n == i * n + n
  {
  }

  /** `m` times `SPLAY_NEXT` at the root: the tree stays as it is, and every call follows the same links. */
  method RepeatNext(h: Head, m: nat) returns (ghost walked: nat)
    requires Valid(h) && h.root != null
    modifies h, h.store.mem.Keys`speLeft, h.store.mem.Keys`speRight
    ensures Valid(h) && h.shape == old(h.shape) && walked == m * Walk(h.shape)
  {
    hide Walk, Splayed, Rounds;
    ghost var t, ks := h.shape, h.store.mem.Keys;
    ghost var at := |InOrder(t.left)|;
    var root := h.root;
    walked := 0;
    RootStays(h.cmp, t);
    Neighbours(InOrder(t.left), t.node, InOrder(t.right));
    for i := 0 to m
      invariant Valid(h) && h.shape == t && h.store.mem.Keys == ks
      invariant walked == i * Walk(t)
    {
      var r;
      ghost var rounds, more;
      r, rounds, more := Next(h, root, at);
      OneTimeMore(i, Walk(t));
      walked := walked + more;
    }
  }

  // ---------- SPLAY_FOREACH ----------

  /** Between two calls of `SPLAY_NEXT`, each asked for the node that the one before has returned: `x` is
      that node, `t` the tree after `i` splays, and what has not been paid for by twice the rounds is paid
      for by the splay to `x`. */
  ghost predicate Sweeping(cmp: Compare, t: Tree, x: Elem?, i: nat, rounds: nat, walked: nat, w0: nat) {
    && Paid(rounds, Weight(t), Raise(SplayBudget(Size(t)), i), w0)
    && walked <= 2 * rounds + if x == null || t.Nil? then 0 else 2 * Part(cmp, t, x.key).steps
  }

  lemma {:induction false} SweepStep(cmp: Compare, t: Tree, x: Elem, i: nat, rounds: nat, walked: nat, w0: nat,
      t': Tree, x': Elem?, more: nat, walk: nat)
    requires TotalOrder(cmp) && t.Bin? && Sorted(cmp, Keys(InOrder(t))) && InOrder(t') == InOrder(t)
    requires Sweeping(cmp, t, x, i, rounds, walked, w0)
    requires t' == Splayed(cmp, t, x.key) && Rounds(cmp, t, x.key) - 1 <= more <= Rounds(cmp, t, x.key)
    requires walk == Walk(t') && (if x' == null then walk == 0 else First(InOrder(t'.right)) == x')
    ensures Sweeping(cmp, t', x', i + 1, rounds + more, walked + walk, w0)
  {
    SplayedSize(cmp, t, x.key);
    SweepPaid(cmp, t, x.key, Size(t), rounds, i, w0, more);
    if x' != null {
      WalkPaid(cmp, t', x');
    }
  }

  /** Where a sweep starts: after the splay to the least element. */
  lemma {:induction false} SweepStart(cmp: Compare, t: Tree, x: Elem?, rounds: nat)
    requires rounds <= EndRounds(-1, t)
    ensures if t.Nil? then rounds == 0 else Sweeping(cmp, EndSplayed(-1, t), x, 1, rounds, 0, Weight(t))
  {
    if t.Nil? {
    } else {
      SplayedSize(Always(-1), t, t.node.key);
      NothingPaid(SplayBudget(Size(t)), Weight(t));
      SweepPaid(Always(-1), t, t.node.key, Size(t), 0, 0, Weight(t), rounds);
    }
  }

  lemma {:induction false} SweepEnd(cmp: Compare, t: Tree, i: nat, rounds: nat, walked: nat, w0: nat)
    requires Sweeping(cmp, t, null, i, rounds, walked, w0)
    ensures Paid(rounds, Weight(t), Raise(SplayBudget(|InOrder(t)|), i), w0) && walked <= 2 * rounds
  {
    SizeInOrder(t);
  }

  /** One round of the loop: the body sees `x`, and the loop goes on with its successor. */
  method VisitNext(h: Head, x: Elem, seen: seq<Elem>, ghost all: seq<Elem>, ghost rounds0: nat, ghost walked0: nat,
      ghost w0: nat)
    returns (y: Elem?, visited: seq<Elem>, ghost rounds: nat, ghost walked: nat)
    requires Valid(h) && Elements(h) == all && |seen| <= |all| && seen == all[..|seen|] && x == Get(all, |seen|)
    requires Sweeping(h.cmp, h.shape, x, |seen| + 1, rounds0, walked0, w0)
    modifies h, h.store.mem.Keys`speLeft, h.store.mem.Keys`speRight
    ensures Valid(h) && Elements(h) == all && h.store.mem.Keys == old(h.store.mem.Keys)
    ensures |seen| < |all| && |visited| == |seen| + 1 && visited == all[..|visited|] && y == Get(all, |visited|)
    ensures Sweeping(h.cmp, h.shape, y, |visited| + 1, rounds, walked, w0)
  {
    hide Sweeping, Walk, Splayed, Rounds, Rep, Part, Tracks, Sorted, TotalOrder, Holds;
    Ordered(h);
    ghost var t := h.shape;
    ghost var more, walk;
    visited := Visit(seen, x, all);
    y, more, walk := Next(h, x, |seen|);
    rounds, walked := rounds0 + more, walked0 + walk;
    SweepStep(h.cmp, t, x, |seen| + 1, rounds0, walked0, w0, h.shape, y, more, walk);
  }

  /** `SPLAY_FOREACH`: although every step reshapes the tree, each node is visited once, in order. All the
      links that the calls of `SPLAY_NEXT` follow are at most twice the rounds of all the splays, and these
      are paid for: for `n` nodes they are at most `(n + 1) (1 + 3 lg n)` beyond the potential at the start. */
  method Foreach(h: Head) returns (visited: seq<Elem>, ghost rounds: nat, ghost walked: nat)
    requires Valid(h)
    modifies h, h.store.mem.Keys`speLeft, h.store.mem.Keys`speRight
    ensures Valid(h) && Elements(h) == old(Elements(h))
    ensures visited == Elements(h)
    ensures var n := |Elements(h)|;
      if n == 0 then rounds == 0
      else Paid(rounds, Weight(h.shape), Raise(SplayBudget(n), n + 1), old(Weight(h.shape)))
    ensures walked <= 2 * rounds
  {
    hide Sweeping, Paid, Weight, EndSplayed, EndRounds, Get;
    visited := [];
    ghost var all, ks, t0 := Elements(h), h.store.mem.Keys, h.shape;
    var x;
    x, rounds := MinMax(h, -1);
    walked := 0;
    SweepStart(h.cmp, t0, x, rounds);
    FirstAt(all);
    while x != null
      invariant Valid(h) && Elements(h) == all && h.store.mem.Keys == ks
      invariant |visited| <= |all| && visited == all[..|visited|]
      invariant x == Get(all, |visited|)
      invariant if all == [] then rounds == 0 && walked == 0
                else Sweeping(h.cmp, h.shape, x, |visited| + 1, rounds, walked, Weight(t0))
      decreases |all| - |visited|
    {
      x, visited, rounds, walked := VisitNext(h, x, visited, all, rounds, walked, Weight(t0));
    }
    if all != [] {
      SweepEnd(h.cmp, h.shape, |visited| + 1, rounds, walked, Weight(t0));
    }
    AllVisited(visited, all);
  }
}
