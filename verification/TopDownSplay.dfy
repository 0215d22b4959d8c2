/** `SPLAY` and `SPLAY_MINMAX`: the top-down splay. */
module TopDownSplay {
  import opened Order
  import opened Entries
  import opened SplayStore
  import opened SplayPart

  /** In the middle of a splay: the left side tree `l`, the rest of the tree `t` and the right side
      tree `r` share no node; `d` is the dummy on the stack. */
  ghost predicate Split(s: Store, d: Elem, l: Side, t: Tree, r: Side) {
    && s.root == Root(t) && Rep(s.mem, t) && LeftSide(s.mem, d, l) && RightSide(s.mem, d, r)
    && Beside(l, r, t) && SideNodes(l) !! SideNodes(r)
    && d !in Nodes(t) && d !in SideNodes(l) && d !in SideNodes(r)
  }

  ghost function RotL(t: Tree): Tree
    requires t.Bin? && t.right.Bin?
  {
    Bin(Bin(t.left, t.node, t.right.left), t.right.node, t.right.right)
  }

  ghost function RotR(t: Tree): Tree
    requires t.Bin? && t.left.Bin?
  {
    Bin(t.left.left, t.left.node, Bin(t.left.right, t.node, t.right))
  }

  lemma {:induction false} Regroup(a: seq<Elem>, x: Elem, b: seq<Elem>, y: Elem, c: seq<Elem>)
    ensures (a + [x] + b) + [y] + c == a + [x] + (b + [y] + c)
  {
  }

  lemma {:induction false} RotLInOrder(t: Tree)
    requires t.Bin? && t.right.Bin?
    ensures InOrder(RotL(t)) == InOrder(t)
  {
    Regroup(InOrder(t.left), t.node, InOrder(t.right.left), t.right.node, InOrder(t.right.right));
  }

  lemma {:induction false} RotRInOrder(t: Tree)
    requires t.Bin? && t.left.Bin?
    ensures InOrder(RotR(t)) == InOrder(t)
  {
    Regroup(InOrder(t.left.left), t.left.node, InOrder(t.left.right), t.node, InOrder(t.right));
  }

  /** The two nodes of a rotation, the subtrees around them and the side trees share no node. */
  ghost predicate Apart(d: Elem, l: Side, r: Side, x: Elem, y: Elem, a: Tree, b: Tree, c: Tree) {
    && x != y && Clear(x, d, l, r, a, b, c) && Clear(y, d, l, r, a, b, c) && Clear(d, null, l, r, a, b, c)
    && Nodes(a) !! Nodes(b) && Nodes(a) !! Nodes(c) && Nodes(b) !! Nodes(c)
    && SideNodes(l) !! SideNodes(r) && Beside(l, r, a) && Beside(l, r, b) && Beside(l, r, c)
  }

  ghost predicate Clear(n: Elem, d: Elem?, l: Side, r: Side, a: Tree, b: Tree, c: Tree) {
    n != d && n !in SideNodes(l) && n !in SideNodes(r) && n !in Nodes(a) && n !in Nodes(b) && n !in Nodes(c)
  }

  ghost predicate Beside(l: Side, r: Side, t: Tree) {
    Nodes(t) !! SideNodes(l) && Nodes(t) !! SideNodes(r)
  }

  ghost predicate Pieces(m: Mem, d: Elem, l: Side, r: Side, a: Tree, b: Tree, c: Tree) {
    LeftSide(m, d, l) && RightSide(m, d, r) && Rep(m, a) && Rep(m, b) && Rep(m, c)
  }

  /** Writing to a node outside the side trees and three subtrees. */
  lemma {:induction false} KeepPieces(m: Mem, n: Elem, e: Cell, d: Elem, l: Side, r: Side, a: Tree, b: Tree, c: Tree)
    requires Pieces(m, d, l, r, a, b, c) && Clear(n, d, l, r, a, b, c)
    ensures Pieces(m[n := e], d, l, r, a, b, c)
  {
    KeepLeft(m, n, e, d, l);
    KeepRight(m, n, e, d, r);
    Keep(m, n, e, a);
    Keep(m, n, e, b);
    Keep(m, n, e, c);
  }

  /** A tree whose left child exists, taken apart for a rotation. */
  lemma {:induction false} OpenLeft(s: Store, d: Elem, l: Side, t: Tree, r: Side)
    requires Split(s, d, l, t, r) && t.Bin? && t.left.Bin?
    ensures var x, y, a, b, c := t.node, t.left.node, t.left.left, t.left.right, t.right;
      && Apart(d, l, r, x, y, a, b, c) && Pieces(s.mem, d, l, r, a, b, c)
      && x in s.mem && s.mem[x] == Cell(y, Root(c)) && y in s.mem && s.mem[y] == Cell(Root(a), Root(b))
  {
    assert Rep(s.mem, t.left);
  }

  lemma {:induction false} OpenRight(s: Store, d: Elem, l: Side, t: Tree, r: Side)
    requires Split(s, d, l, t, r) && t.Bin? && t.right.Bin?
    ensures var x, y, a, b, c := t.node, t.right.node, t.left, t.right.left, t.right.right;
      && Apart(d, l, r, x, y, a, b, c) && Pieces(s.mem, d, l, r, a, b, c)
      && x in s.mem && s.mem[x] == Cell(Root(a), y) && y in s.mem && s.mem[y] == Cell(Root(b), Root(c))
  {
    assert Rep(s.mem, t.right);
  }

  lemma {:induction false} BesideBin(l: Side, r: Side, a: Tree, n: Elem, b: Tree)
    requires Beside(l, r, a) && Beside(l, r, b) && n !in SideNodes(l) && n !in SideNodes(r)
    ensures Beside(l, r, Bin(a, n, b))
  {
  }

  lemma {:induction false} RepBin(m: Mem, a: Tree, n: Elem, b: Tree)
    requires Rep(m, a) && Rep(m, b) && n in m && m[n] == Cell(Root(a), Root(b))
    requires n !in Nodes(a) && n !in Nodes(b) && Nodes(a) !! Nodes(b)
    ensures Rep(m, Bin(a, n, b))
  {
  }

  /** `x` is a child of the root `y`. */
  lemma {:induction false} JoinRight(s: Store, d: Elem, l: Side, r: Side, x: Elem, y: Elem, a: Tree, b: Tree, c: Tree)
    requires Apart(d, l, r, x, y, a, b, c) && Pieces(s.mem, d, l, r, a, b, c) && s.root == y
    requires x in s.mem && s.mem[x] == Cell(Root(b), Root(c)) && y in s.mem && s.mem[y] == Cell(Root(a), x)
    ensures Split(s, d, l, Bin(a, y, Bin(b, x, c)), r)
  {
    hide LeftSide, RightSide;
    RepBin(s.mem, b, x, c);
    RepBin(s.mem, a, y, Bin(b, x, c));
    BesideBin(l, r, b, x, c);
    BesideBin(l, r, a, y, Bin(b, x, c));
  }

  lemma {:induction false} JoinLeft(s: Store, d: Elem, l: Side, r: Side, x: Elem, y: Elem, a: Tree, b: Tree, c: Tree)
    requires Apart(d, l, r, x, y, a, b, c) && Pieces(s.mem, d, l, r, a, b, c) && s.root == y
    requires x in s.mem && s.mem[x] == Cell(Root(a), Root(b)) && y in s.mem && s.mem[y] == Cell(x, Root(c))
    ensures Split(s, d, l, Bin(Bin(a, x, b), y, c), r)
  {
    hide LeftSide, RightSide;
    RepBin(s.mem, a, x, b);
    RepBin(s.mem, Bin(a, x, b), y, c);
    BesideBin(l, r, a, x, b);
    BesideBin(l, r, Bin(a, x, b), y, c);
  }

  /** `SPLAY_ROTATE_RIGHT`, where `tmp` is the root's left child. */
  method RotateRight(h: Head, tmp: Elem, ghost s0: Store, ghost d: Elem, ghost l: Side, ghost t: Tree, ghost r: Side)
    returns (ghost s: Store)
    requires Holds(h, s0) && Split(s0, d, l, t, r) && t.Bin? && t.left.Bin? && tmp == t.left.node
    modifies h`root, s0.mem.Keys`speLeft, s0.mem.Keys`speRight
    ensures Holds(h, s) && s.mem.Keys == s0.mem.Keys && Split(s, d, l, RotR(t), r)
    ensures InOrder(RotR(t)) == InOrder(t)
  {
    OpenLeft(s0, d, l, t, r);
    ghost var x, a, b, c := t.node, t.left.left, t.left.right, t.right;
    ghost var s1 := SetLeft(h, h.root, tmp.speRight, s0);
    KeepPieces(s0.mem, x, s1.mem[x], d, l, r, a, b, c);
    ghost var s2 := SetRight(h, tmp, h.root, s1);
    KeepPieces(s1.mem, tmp, s2.mem[tmp], d, l, r, a, b, c);
    s := SetRoot(h, tmp, s2);
    JoinRight(s, d, l, r, x, tmp, a, b, c);
    RotRInOrder(t);
  }

  /** `SPLAY_ROTATE_LEFT`, where `tmp` is the root's right child. */
  method RotateLeft(h: Head, tmp: Elem, ghost s0: Store, ghost d: Elem, ghost l: Side, ghost t: Tree, ghost r: Side)
    returns (ghost s: Store)
    requires Holds(h, s0) && Split(s0, d, l, t, r) && t.Bin? && t.right.Bin? && tmp == t.right.node
    modifies h`root, s0.mem.Keys`speLeft, s0.mem.Keys`speRight
    ensures Holds(h, s) && s.mem.Keys == s0.mem.Keys && Split(s, d, l, RotL(t), r)
    ensures InOrder(RotL(t)) == InOrder(t)
  {
    OpenRight(s0, d, l, t, r);
    ghost var x, a, b, c := t.node, t.left, t.right.left, t.right.right;
    ghost var s1 := SetRight(h, h.root, tmp.speLeft, s0);
    KeepPieces(s0.mem, x, s1.mem[x], d, l, r, a, b, c);
    ghost var s2 := SetLeft(h, tmp, h.root, s1);
    KeepPieces(s1.mem, tmp, s2.mem[tmp], d, l, r, a, b, c);
    s := SetRoot(h, tmp, s2);
    JoinLeft(s, d, l, r, x, tmp, a, b, c);
    RotLInOrder(t);
  }

  /** Once the tip of the right side tree leads to the root, the root counts as hung there. */
  lemma {:induction false} Hung(s: Store, d: Elem, l: Side, t: Tree, r: Side)
    requires Split(s, d, l, t, r) && t.Bin?
    ensures s.mem[Tip(d, r)].left == t.node ==> Split(s.(root := Root(t.left)), d, l, t.left, Hang(r, t.node, t.right))
    ensures s.mem[Tip(d, l)].right == t.node ==>
      Split(s.(root := Root(t.right)), d, Hang(l, t.node, t.left), t.right, r)
  {
    assert Rep(s.mem, t.left) && Rep(s.mem, t.right);
  }

  /** `SPLAY_LINKLEFT`: the root goes to the right side tree, its left child becomes the root. */
  method LinkLeft(h: Head, tmp0: Elem, ghost s0: Store, ghost d: Elem, ghost l: Side, ghost t: Tree, ghost r: Side)
    returns (tmp: Elem, ghost s: Store)
    requires Holds(h, s0) && Split(s0, d, l, t, r) && t.Bin? && tmp0 == Tip(d, r)
    modifies h`root, s0.mem.Keys`speLeft, s0.mem.Keys`speRight
    ensures Holds(h, s) && s.mem.Keys == s0.mem.Keys && tmp == t.node
    ensures Split(s, d, l, t.left, Hang(r, t.node, t.right))
  {
    ghost var s1 := SetLeft(h, tmp0, h.root, s0);
    KeepLeft(s0.mem, tmp0, s1.mem[tmp0], d, l);
    KeepRight(s0.mem, tmp0, s1.mem[tmp0], d, r);
    Keep(s0.mem, tmp0, s1.mem[tmp0], t);
    Hung(s1, d, l, t, r);
    tmp := h.root;
    s := SetRoot(h, h.root.speLeft, s1);
  }

  /** `SPLAY_LINKRIGHT`: the root goes to the left side tree, its right child becomes the root. */
  method LinkRight(h: Head, tmp0: Elem, ghost s0: Store, ghost d: Elem, ghost l: Side, ghost t: Tree, ghost r: Side)
    returns (tmp: Elem, ghost s: Store)
    requires Holds(h, s0) && Split(s0, d, l, t, r) && t.Bin? && tmp0 == Tip(d, l)
    modifies h`root, s0.mem.Keys`speLeft, s0.mem.Keys`speRight
    ensures Holds(h, s) && s.mem.Keys == s0.mem.Keys && tmp == t.node
    ensures Split(s, d, Hang(l, t.node, t.left), t.right, r)
  {
    ghost var s1 := SetRight(h, tmp0, h.root, s0);
    KeepLeft(s0.mem, tmp0, s1.mem[tmp0], d, l);
    KeepRight(s0.mem, tmp0, s1.mem[tmp0], d, r);
    Keep(s0.mem, tmp0, s1.mem[tmp0], t);
    Hung(s1, d, l, t, r);
    tmp := h.root;
    s := SetRoot(h, h.root.speRight, s1);
  }

  /** The tree that the reassembly leaves. */
  ghost function Assembled(l: Side, t: Tree, r: Side): Tree
    requires t.Bin?
  {
    Bin(CloseLeft(l, t.left), t.node, CloseRight(r, t.right))
  }

  lemma {:induction false} AssembledInOrder(l: Side, t: Tree, r: Side)
    requires t.Bin?
    ensures InOrder(Assembled(l, t, r)) == Flat(l, t, r)
    ensures InOrder(Assembled(l, t, r).left) == Before(l) + InOrder(t.left)
    ensures InOrder(Assembled(l, t, r).right) == InOrder(t.right) + After(r)
  {
    CloseLeftInOrder(l, t.left);
    CloseRightInOrder(r, t.right);
  }

  /** The subtrees of the root go to the two side trees. */
  method Fill(h: Head, left: Elem, right: Elem, ghost s0: Store, ghost d: Elem, ghost l: Side, ghost t: Tree,
      ghost r: Side)
    returns (ghost s: Store)
    requires Holds(h, s0) && Split(s0, d, l, t, r) && t.Bin? && left == Tip(d, l) && right == Tip(d, r)
    modifies s0.mem.Keys`speLeft, s0.mem.Keys`speRight
    ensures Holds(h, s) && s.mem.Keys == s0.mem.Keys && s.root == s0.root
    ensures var a, b := CloseLeft(l, t.left), CloseRight(r, t.right);
      && Rep(s.mem, a) && Rep(s.mem, b) && s.mem[d] == Cell(Root(b), Root(a))
      && Nodes(a) !! Nodes(b) && d !in Nodes(a) && d !in Nodes(b) && t.node !in Nodes(a) && t.node !in Nodes(b)
  {
    hide Rep;
    s := SetRight(h, left, h.root.speLeft, s0);
    KeepLeft(s0.mem, left, s.mem[left], d, l);
    KeepRight(s0.mem, left, s.mem[left], d, r);
    Keep(s0.mem, left, s.mem[left], t);
    ghost var s1 := s;
    s := SetLeft(h, right, h.root.speRight, s1);
    KeepLeft(s1.mem, right, s.mem[right], d, l);
    KeepRight(s1.mem, right, s.mem[right], d, r);
    Keep(s1.mem, right, s.mem[right], t);
    FillLeft(s.mem, d, l, t.left);
    FillRight(s.mem, d, r, t.right);
  }

  /** `SPLAY_ASSEMBLE`. */
  method Assemble(h: Head, node: Elem, left: Elem, right: Elem, ghost s0: Store, ghost l: Side, ghost t: Tree,
      ghost r: Side)
    returns (ghost s: Store)
    requires Holds(h, s0) && Split(s0, node, l, t, r) && t.Bin? && left == Tip(node, l) && right == Tip(node, r)
    modifies s0.mem.Keys`speLeft, s0.mem.Keys`speRight
    ensures Holds(h, s) && s.mem.Keys == s0.mem.Keys
    ensures s.root == t.node && Rep(s.mem, Assembled(l, t, r)) && node !in Nodes(Assembled(l, t, r))
  {
    ghost var x, a, b := t.node, CloseLeft(l, t.left), CloseRight(r, t.right);
    s := Fill(h, left, right, s0, node, l, t, r);
    ghost var s1 := s;
    s := SetLeft(h, h.root, node.speRight, s1);
    Keep(s1.mem, x, s.mem[x], a);
    Keep(s1.mem, x, s.mem[x], b);
    s1 := s;
    s := SetRight(h, h.root, node.speLeft, s1);
    Keep(s1.mem, x, s.mem[x], a);
    Keep(s1.mem, x, s.mem[x], b);
  }

  // ---------- the search order ----------

  /** All that has gone to the left is smaller than `k`, all that has gone to the right is greater. */
  ghost predicate Around(cmp: Compare, l: Side, t: Tree, r: Side, k: Key) {
    && Sorted(cmp, Keys(Flat(l, t, r)))
    && AllBelow(cmp, Keys(Before(l)), k) && AllAbove(cmp, Keys(After(r)), k)
  }

  lemma {:induction false} Regroup4(a: seq<Elem>, b: seq<Elem>, n: seq<Elem>, c: seq<Elem>, d: seq<Elem>)
    ensures a + (b + n + c) + d == (a + b) + n + (c + d)
    ensures a + b + ((n + c) + d) == (a + b) + n + (c + d)
    ensures (a + (b + n)) + c + d == (a + b) + n + (c + d)
    ensures (n + c) + d == n + (c + d) && a + (b + n) == (a + b) + n
  {
  }

  lemma {:induction false} FlatAt(l: Side, t: Tree, r: Side)
    requires t.Bin?
    ensures Flat(l, t, r) == (Before(l) + InOrder(t.left)) + [t.node] + (InOrder(t.right) + After(r))
    ensures Flat(l, t.left, Hang(r, t.node, t.right)) == Flat(l, t, r)
    ensures Flat(Hang(l, t.node, t.left), t.right, r) == Flat(l, t, r)
    ensures After(Hang(r, t.node, t.right)) == [t.node] + (InOrder(t.right) + After(r))
    ensures Before(Hang(l, t.node, t.left)) == (Before(l) + InOrder(t.left)) + [t.node]
  {
    Regroup4(Before(l), InOrder(t.left), [t.node], InOrder(t.right), After(r));
  }

  lemma {:induction false} HungRight(cmp: Compare, l: Side, t: Tree, r: Side, k: Key)
    requires TotalOrder(cmp) && t.Bin? && Around(cmp, l, t, r, k) && cmp(k, t.node.key) < 0
    ensures Around(cmp, l, t.left, Hang(r, t.node, t.right), k)
  {
    FlatAt(l, t, r);
    ComparedAt(cmp, Before(l) + InOrder(t.left), t.node, InOrder(t.right) + After(r), k);
  }

  lemma {:induction false} HungLeft(cmp: Compare, l: Side, t: Tree, r: Side, k: Key)
    requires TotalOrder(cmp) && t.Bin? && Around(cmp, l, t, r, k) && cmp(k, t.node.key) > 0
    ensures Around(cmp, Hang(l, t.node, t.left), t.right, r, k)
  {
    FlatAt(l, t, r);
    ComparedAt(cmp, Before(l) + InOrder(t.left), t.node, InOrder(t.right) + After(r), k);
  }

  /** Where the loop ends: at the equal node, or beside the empty place of `k`. */
  ghost predicate Arrived(cmp: Compare, t: Tree, k: Key) {
    && t.Bin?
    && (cmp(k, t.node.key) < 0 ==> t.left.Nil?)
    && (cmp(k, t.node.key) > 0 ==> t.right.Nil?)
  }

  /** The root separates the keys below `k` from the keys above `k`. */
  ghost predicate Parted(cmp: Compare, t: Tree, k: Key) {
    t.Bin? && AllBelow(cmp, Keys(InOrder(t.left)), k) && AllAbove(cmp, Keys(InOrder(t.right)), k)
  }

  lemma {:induction false} ArrivedParted(cmp: Compare, l: Side, t: Tree, r: Side, k: Key)
    requires TotalOrder(cmp) && Around(cmp, l, t, r, k) && Arrived(cmp, t, k)
    ensures Parted(cmp, Assembled(l, t, r), k)
  {
    FlatAt(l, t, r);
    AssembledInOrder(l, t, r);
    ComparedAt(cmp, Before(l) + InOrder(t.left), t.node, InOrder(t.right) + After(r), k);
    assert t.left.Nil? ==> Before(l) + InOrder(t.left) == Before(l);
    assert t.right.Nil? ==> InOrder(t.right) + After(r) == After(r);
  }

  // ---------- the loop ----------

  /** One round of the loop that goes left, where the root has the left child `tmp`. */
  method StepLeft(h: Head, tmp: Elem, turn: bool, right0: Elem, ghost s0: Store, ghost d: Elem, ghost l: Side,
      ghost t0: Tree, ghost r0: Side)
    returns (stop: bool, right: Elem, ghost s: Store, ghost t: Tree, ghost r: Side)
    requires Holds(h, s0) && Split(s0, d, l, t0, r0) && t0.Bin? && t0.left.Bin? && tmp == t0.left.node
    requires right0 == Tip(d, r0)
    modifies h`root, s0.mem.Keys`speLeft, s0.mem.Keys`speRight
    ensures Holds(h, s) && s.mem.Keys == s0.mem.Keys && Split(s, d, l, t, r) && t.Bin? && right == Tip(d, r)
    ensures var top := if turn then RotR(t0) else t0;
      && InOrder(top) == InOrder(t0)
      && if stop then turn && t == top && top.left.Nil? && r == r0
        else t == top.left && r == Hang(r0, top.node, top.right)
  {
    stop, right, s, t, r := false, right0, s0, t0, r0;
    if turn {
      s := RotateRight(h, tmp, s, d, l, t, r);
      t := RotR(t0);
      stop := h.root.speLeft == null;
    }
    if !stop {
      right, s := LinkLeft(h, right, s, d, l, t, r);
      r := Hang(r, t.node, t.right);
      t := t.left;
    }
  }

  /** One round of the loop that goes right, where the root has the right child `tmp`. */
  method StepRight(h: Head, tmp: Elem, turn: bool, left0: Elem, ghost s0: Store, ghost d: Elem, ghost l0: Side,
      ghost t0: Tree, ghost r: Side)
    returns (stop: bool, left: Elem, ghost s: Store, ghost l: Side, ghost t: Tree)
    requires Holds(h, s0) && Split(s0, d, l0, t0, r) && t0.Bin? && t0.right.Bin? && tmp == t0.right.node
    requires left0 == Tip(d, l0)
    modifies h`root, s0.mem.Keys`speLeft, s0.mem.Keys`speRight
    ensures Holds(h, s) && s.mem.Keys == s0.mem.Keys && Split(s, d, l, t, r) && t.Bin? && left == Tip(d, l)
    ensures var top := if turn then RotL(t0) else t0;
      && InOrder(top) == InOrder(t0)
      && if stop then turn && t == top && top.right.Nil? && l == l0
        else t == top.right && l == Hang(l0, top.node, top.left)
  {
    stop, left, s, l, t := false, left0, s0, l0, t0;
    if turn {
      s := RotateLeft(h, tmp, s, d, l, t, r);
      t := RotL(t0);
      stop := h.root.speRight == null;
    }
    if !stop {
      left, s := LinkRight(h, left, s, d, l, t, r);
      l := Hang(l, t.node, t.left);
      t := t.right;
    }
  }

  lemma {:induction false} SteppedLeft(cmp: Compare, l: Side, t0: Tree, top: Tree, r0: Side, k: Key)
    requires TotalOrder(cmp) && Around(cmp, l, t0, r0, k)
    requires top.Bin? && InOrder(top) == InOrder(t0) && cmp(k, top.node.key) < 0
    ensures Around(cmp, l, top, r0, k) && Flat(l, top, r0) == Flat(l, t0, r0)
    ensures var r := Hang(r0, top.node, top.right);
      Around(cmp, l, top.left, r, k) && Flat(l, top.left, r) == Flat(l, t0, r0) && |InOrder(top.left)| < |InOrder(t0)|
  {
    FlatAt(l, top, r0);
    HungRight(cmp, l, top, r0, k);
  }

  lemma {:induction false} SteppedRight(cmp: Compare, l0: Side, t0: Tree, top: Tree, r: Side, k: Key)
    requires TotalOrder(cmp) && Around(cmp, l0, t0, r, k)
    requires top.Bin? && InOrder(top) == InOrder(t0) && cmp(k, top.node.key) > 0
    ensures Around(cmp, l0, top, r, k) && Flat(l0, top, r) == Flat(l0, t0, r)
    ensures var l := Hang(l0, top.node, top.left);
      Around(cmp, l, top.right, r, k) && Flat(l, top.right, r) == Flat(l0, t0, r)
        && |InOrder(top.right)| < |InOrder(t0)|
  {
    FlatAt(l0, top, r);
    HungLeft(cmp, l0, top, r, k);
  }

  // ---------- the recursive account ----------

  /** The side trees so far, closed with what a splay of the rest comes to, after `done` rounds. */
  ghost function Outward(l: Side, p: Parts, r: Side, done: nat): Parts {
    Parts(CloseLeft(l, p.left), p.node, CloseRight(r, p.right), p.steps + done)
  }

  /** What a round to the left does to the account: a rotation that ends the loop, or a link. */
  lemma {:induction false} AccountLeft(cmp: Compare, l: Side, t0: Tree, r0: Side, k: Key, done: nat)
    requires t0.Bin? && t0.left.Bin? && cmp(k, t0.node.key) < 0
    ensures var turn := cmp(k, t0.left.node.key) < 0; var top := if turn then RotR(t0) else t0;
      Outward(l, Part(cmp, t0, k), r0, done) ==
        if turn && top.left.Nil? then Outward(l, Part(cmp, top, k), r0, done + 1)
        else Outward(l, Part(cmp, top.left, k), Hang(r0, top.node, top.right), done + 1)
  {
  }

  lemma {:induction false} AccountRight(cmp: Compare, l0: Side, t0: Tree, r: Side, k: Key, done: nat)
    requires t0.Bin? && t0.right.Bin? && cmp(k, t0.node.key) > 0
    ensures var turn := cmp(k, t0.right.node.key) > 0; var top := if turn then RotL(t0) else t0;
      Outward(l0, Part(cmp, t0, k), r, done) ==
        if turn && top.right.Nil? then Outward(l0, Part(cmp, top, k), r, done + 1)
        else Outward(Hang(l0, top.node, top.left), Part(cmp, top.right, k), r, done + 1)
  {
  }

  lemma {:induction false} AccountEnd(cmp: Compare, l: Side, t: Tree, r: Side, k: Key, done: nat)
    requires Arrived(cmp, t, k)
    ensures var p := Outward(l, Part(cmp, t, k), r, done); Whole(p) == Assembled(l, t, r) && p.steps == done
  {
  }

  /** The branch of the loop for a key below the root's. */
  method GoLeft(h: Head, k: Key, right0: Elem, ghost s0: Store, ghost d: Elem, ghost l: Side, ghost t0: Tree,
      ghost r0: Side, ghost done0: nat)
    returns (stop: bool, right: Elem, ghost s: Store, ghost t: Tree, ghost r: Side, ghost done: nat)
    requires Holds(h, s0) && Split(s0, d, l, t0, r0) && t0.Bin? && right0 == Tip(d, r0)
    requires TotalOrder(h.cmp) && Around(h.cmp, l, t0, r0, k) && h.cmp(k, t0.node.key) < 0
    modifies h`root, s0.mem.Keys`speLeft, s0.mem.Keys`speRight
    ensures Holds(h, s) && s.mem.Keys == s0.mem.Keys && Split(s, d, l, t, r) && t.Bin? && right == Tip(d, r)
    ensures Around(h.cmp, l, t, r, k) && Flat(l, t, r) == Flat(l, t0, r0)
    ensures Outward(l, Part(h.cmp, t, k), r, done) == Outward(l, Part(h.cmp, t0, k), r0, done0)
    ensures if stop then Arrived(h.cmp, t, k) && done0 <= done <= done0 + 1
            else |InOrder(t)| < |InOrder(t0)| && done == done0 + 1
  {
    var tmp := h.root.speLeft;
    if tmp == null {
      stop, right, s, t, r, done := true, right0, s0, t0, r0, done0;
    } else {
      var turn := h.cmp(k, tmp.key) < 0;
      AccountLeft(h.cmp, l, t0, r0, k, done0);
      done := done0 + 1;
      SteppedLeft(h.cmp, l, t0, if turn then RotR(t0) else t0, r0, k) by { RotRInOrder(t0); }
      stop, right, s, t, r := StepLeft(h, tmp, turn, right0, s0, d, l, t0, r0);
    }
  }

  /** The branch of the loop for a key above the root's. */
  method GoRight(h: Head, k: Key, left0: Elem, ghost s0: Store, ghost d: Elem, ghost l0: Side, ghost t0: Tree,
      ghost r: Side, ghost done0: nat)
    returns (stop: bool, left: Elem, ghost s: Store, ghost l: Side, ghost t: Tree, ghost done: nat)
    requires Holds(h, s0) && Split(s0, d, l0, t0, r) && t0.Bin? && left0 == Tip(d, l0)
    requires TotalOrder(h.cmp) && Around(h.cmp, l0, t0, r, k) && h.cmp(k, t0.node.key) > 0
    modifies h`root, s0.mem.Keys`speLeft, s0.mem.Keys`speRight
    ensures Holds(h, s) && s.mem.Keys == s0.mem.Keys && Split(s, d, l, t, r) && t.Bin? && left == Tip(d, l)
    ensures Around(h.cmp, l, t, r, k) && Flat(l, t, r) == Flat(l0, t0, r)
    ensures Outward(l, Part(h.cmp, t, k), r, done) == Outward(l0, Part(h.cmp, t0, k), r, done0)
    ensures if stop then Arrived(h.cmp, t, k) && done0 <= done <= done0 + 1
            else |InOrder(t)| < |InOrder(t0)| && done == done0 + 1
  {
    var tmp := h.root.speRight;
    if tmp == null {
      stop, left, s, l, t, done := true, left0, s0, l0, t0, done0;
    } else {
      var turn := h.cmp(k, tmp.key) > 0;
      AccountRight(h.cmp, l0, t0, r, k, done0);
      done := done0 + 1;
      SteppedRight(h.cmp, l0, t0, if turn then RotL(t0) else t0, r, k) by { RotLInOrder(t0); }
      stop, left, s, l, t := StepRight(h, tmp, turn, left0, s0, d, l0, t0, r);
    }
  }

  /** One round of the loop. */
  method Descend(h: Head, k: Key, comp: int, left0: Elem, right0: Elem, ghost s0: Store, ghost d: Elem, ghost l0: Side,
      ghost t0: Tree, ghost r0: Side, ghost done0: nat)
    returns (stop: bool, left: Elem, right: Elem, ghost s: Store, ghost l: Side, ghost t: Tree, ghost r: Side,
      ghost done: nat)
    requires Holds(h, s0) && Split(s0, d, l0, t0, r0) && t0.Bin? && left0 == Tip(d, l0) && right0 == Tip(d, r0)
    requires TotalOrder(h.cmp) && Around(h.cmp, l0, t0, r0, k) && comp == h.cmp(k, t0.node.key) && comp != 0
    modifies h`root, s0.mem.Keys`speLeft, s0.mem.Keys`speRight
    ensures Holds(h, s) && s.mem.Keys == s0.mem.Keys && Split(s, d, l, t, r) && t.Bin?
    ensures left == Tip(d, l) && right == Tip(d, r)
    ensures Around(h.cmp, l, t, r, k) && Flat(l, t, r) == Flat(l0, t0, r0)
    ensures Outward(l, Part(h.cmp, t, k), r, done) == Outward(l0, Part(h.cmp, t0, k), r0, done0)
    ensures if stop then Arrived(h.cmp, t, k) && done0 <= done <= done0 + 1
            else |InOrder(t)| < |InOrder(t0)| && done == done0 + 1
  {
    hide Part, LeftSide, RightSide, Rep;
    left, right, l, r := left0, right0, l0, r0;
    if comp < 0 {
      stop, right, s, t, r, done := GoLeft(h, k, right, s0, d, l, t0, r, done0);
    } else {
      stop, left, s, l, t, done := GoRight(h, k, left, s0, d, l, t0, r, done0);
    }
  }

  /** The store holds the tree `t` below the head. */
  ghost predicate Tall(s: Store, t: Tree) {
    t.Bin? && s.root == t.node && Rep(s.mem, t)
  }

  /** The dummy node, which is on the stack for the time of a splay. */
  method Dummy(h: Head, k: Key, ghost s0: Store, ghost t0: Tree) returns (node: Elem, ghost s: Store)
    requires Holds(h, s0) && Tall(s0, t0)
    ensures Holds(h, s) && fresh(node) && node !in s0.mem && s.mem.Keys == s0.mem.Keys + {node}
    ensures Split(s, node, End, t0, End)
  {
    node := new Elem(k);
    node.speLeft, node.speRight := null, null;
    s := Set(s0, node, Cell(null, null));
    NodesIn(s0.mem, t0);
    Keep(s0.mem, node, s.mem[node], t0);
  }

  lemma {:induction false} NodesIn(m: Mem, t: Tree)
    requires Rep(m, t)
    ensures forall n <- Nodes(t) :: n in m
  {
    if t.Nil? {
    } else {
      NodesIn(m, t.left);
      NodesIn(m, t.right);
    }
  }

  lemma {:induction false} FlatEnds(t: Tree)
    ensures Flat(End, t, End) == InOrder(t)
  {
  }

  /** `SPLAY_ASSEMBLE`; the dummy goes with the stack frame. */
  method Finish(h: Head, node: Elem, left: Elem, right: Elem, ghost s1: Store, ghost s0: Store, ghost l: Side,
      ghost t: Tree, ghost r: Side)
    returns (ghost s: Store, ghost shape: Tree)
    requires Holds(h, s1) && Split(s1, node, l, t, r) && t.Bin? && left == Tip(node, l) && right == Tip(node, r)
    requires node !in s0.mem && s1.mem.Keys == s0.mem.Keys + {node}
    modifies s1.mem.Keys`speLeft, s1.mem.Keys`speRight
    ensures Holds(h, s) && s.mem.Keys == s0.mem.Keys && Tall(s, shape)
    ensures shape == Assembled(l, t, r) && InOrder(shape) == Flat(l, t, r)
  {
    hide LeftSide, RightSide;
    AssembledInOrder(l, t, r);
    s := Assemble(h, node, left, right, s1, l, t, r);
    shape := Assembled(l, t, r);
    Forget(s.mem, node, shape);
    s := s.(mem := s.mem - {node});
  }

  /** `SPLAY`: the node closest to the key of `elm` becomes the root. The tree is not empty. The loop
      comes to what the recursive account says, in at most one round more than its steps. */
  method Splay(h: Head, elm: Elem, ghost s0: Store, ghost t0: Tree)
    returns (ghost s: Store, ghost shape: Tree, ghost rounds: nat)
    requires Holds(h, s0) && Tall(s0, t0)
    requires TotalOrder(h.cmp) && Sorted(h.cmp, Keys(InOrder(t0)))
    modifies h`root, s0.mem.Keys`speLeft, s0.mem.Keys`speRight
    ensures Holds(h, s) && s.mem.Keys == s0.mem.Keys && Tall(s, shape)
    ensures InOrder(shape) == InOrder(t0) && Parted(h.cmp, shape, elm.key)
    ensures shape == Whole(Part(h.cmp, t0, elm.key))
    ensures var steps := Part(h.cmp, t0, elm.key).steps; steps <= rounds <= steps + 1
  {
    hide Part, LeftSide, RightSide, Rep;
    var node, left, right, stop;
    ghost var l, t, r, k := End, t0, End, elm.key;
    node, s := Dummy(h, elm.key, s0, t0);
    ghost var keys, done := s.mem.Keys, 0;
    rounds := 0;
    left, right := node, node;
    FlatEnds(t0);
    var comp := h.cmp(elm.key, h.root.key);
    while comp != 0
      invariant Holds(h, s) && s.mem.Keys == keys && Split(s, node, l, t, r) && t.Bin?
      invariant left == Tip(node, l) && right == Tip(node, r)
      invariant Around(h.cmp, l, t, r, k) && Flat(l, t, r) == InOrder(t0)
      invariant comp == h.cmp(k, t.node.key)
      invariant Outward(l, Part(h.cmp, t, k), r, done) == Part(h.cmp, t0, k) && rounds == done
      decreases |InOrder(t)|
    {
      rounds := rounds + 1;
      stop, left, right, s, l, t, r, done := Descend(h, elm.key, comp, left, right, s, node, l, t, r, done);
      if stop {
        break;
      }
      comp := h.cmp(elm.key, h.root.key);
    }
    AccountEnd(h.cmp, l, t, r, k, done);
    ArrivedParted(h.cmp, l, t, r, k);
    s, shape := Finish(h, node, left, right, s, s0, l, t, r);
  }
}
