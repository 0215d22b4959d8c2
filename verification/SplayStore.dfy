/**
 Splay trees: shapes, the heap, and the two side trees that a top-down splay builds.

 As for the red-black trees, every field is written through a setter that keeps a ghost snapshot, and
 what a snapshot represents is a matter of plain mathematics.
 */
module SplayStore {
  import opened Order
  import opened Entries

  datatype Tree = Nil | Bin(left: Tree, node: Elem, right: Tree)

  /** A side tree, from the node that was hung last up to the node that was hung first. On the left
      side tree each node keeps its left subtree `sub` and holds the next one as its right child; on
      the right side tree it is the other way around. */
  datatype Side = End | Hang(up: Side, node: Elem, sub: Tree)

  ghost function Root(t: Tree): Elem? {
    if t.Nil? then null else t.node
  }

  ghost function Nodes(t: Tree): set<Elem> {
    match t
    case Nil => {}
    case Bin(l, n, r) => Nodes(l) + {n} + Nodes(r)
  }

  ghost function SideNodes(side: Side): set<Elem> {
    match side
    case End => {}
    case Hang(up, n, sub) => SideNodes(up) + {n} + Nodes(sub)
  }

  ghost function InOrder(t: Tree): seq<Elem> {
    match t
    case Nil => []
    case Bin(l, n, r) => InOrder(l) + [n] + InOrder(r)
  }

  /** The nodes of a left side tree, in order. */
  ghost function Before(side: Side): seq<Elem> {
    match side
    case End => []
    case Hang(up, n, sub) => Before(up) + (InOrder(sub) + [n])
  }

  /** The nodes of a right side tree, in order. */
  ghost function After(side: Side): seq<Elem> {
    match side
    case End => []
    case Hang(up, n, sub) => ([n] + InOrder(sub)) + After(up)
  }

  ghost function Flat(l: Side, t: Tree, r: Side): seq<Elem> {
    Before(l) + InOrder(t) + After(r)
  }

  /** A left side tree with `t` as the last right child. */
  ghost function CloseLeft(side: Side, t: Tree): Tree {
    match side
    case End => t
    case Hang(up, n, sub) => CloseLeft(up, Bin(sub, n, t))
  }

  /** A right side tree with `t` as the last left child. */
  ghost function CloseRight(side: Side, t: Tree): Tree {
    match side
    case End => t
    case Hang(up, n, sub) => CloseRight(up, Bin(t, n, sub))
  }

  lemma {:induction false} CloseLeftInOrder(side: Side, t: Tree)
    ensures InOrder(CloseLeft(side, t)) == Before(side) + InOrder(t)
    decreases side
  {
    match side
    case End =>
    case Hang(up, n, sub) =>
      CloseLeftInOrder(up, Bin(sub, n, t));
      assert Before(up) + (InOrder(sub) + [n] + InOrder(t)) == Before(side) + InOrder(t);
  }

  lemma {:induction false} CloseRightInOrder(side: Side, t: Tree)
    ensures InOrder(CloseRight(side, t)) == InOrder(t) + After(side)
    decreases side
  {
    match side
    case End =>
    case Hang(up, n, sub) =>
      CloseRightInOrder(up, Bin(t, n, sub));
      assert (InOrder(t) + [n] + InOrder(sub)) + After(up) == InOrder(t) + After(side);
  }

  lemma {:induction false} NodesInOrder(t: Tree)
    ensures forall n :: n in Nodes(t) <==> n in InOrder(t)
  {
    if t.Nil? {
    } else {
      NodesInOrder(t.left);
      NodesInOrder(t.right);
    }
  }

  lemma {:induction false} SubtreesSorted(cmp: Compare, t: Tree)
    requires t.Bin? && Sorted(cmp, Keys(InOrder(t)))
    ensures Sorted(cmp, Keys(InOrder(t.left))) && Sorted(cmp, Keys(InOrder(t.right)))
  {
    var ks, l, r := Keys(InOrder(t)), Keys(InOrder(t.left)), Keys(InOrder(t.right));
    assert InOrder(t) == InOrder(t.left) + [t.node] + InOrder(t.right);
    forall i, j | 0 <= i < j < |l|
      ensures cmp(l[i], l[j]) < 0
    {
      assert cmp(ks[i], ks[j]) < 0;
    }
    forall i, j | 0 <= i < j < |r|
      ensures cmp(r[i], r[j]) < 0
    {
      var n := |l| + 1;
      assert ks[n + i] == r[i] && ks[n + j] == r[j];
      assert cmp(ks[n + i], ks[n + j]) < 0;
    }
  }

  // ---------- the heap ----------

  /** The `SPLAY_ENTRY` fields of one node. */
  datatype Cell = Cell(left: Elem?, right: Elem?)

  type Mem = map<Elem, Cell>

  datatype Store = Store(root: Elem?, mem: Mem)

  /** The `SPLAY_HEAD` struct. `store` and `shape` say what the heap holds between two operations. */
  class Head {
    const cmp: Compare
    var root: Elem?
    ghost var store: Store
    ghost var shape: Tree

    /** `SPLAY_INIT`. */
    constructor (cmp: Compare)
      ensures this.cmp == cmp && root == null && shape == Nil && store == Store(null, map[])
    {
      this.cmp := cmp;
      root := null;
      shape := Nil;
      store := Store(null, map[]);
    }
  }

  ghost predicate Holds(h: Head, s: Store)
    reads h`root, s.mem.Keys`speLeft, s.mem.Keys`speRight
  {
    h.root == s.root &&
    forall n :: n in s.mem ==> s.mem[n] == Cell(n.speLeft, n.speRight)
  }

  ghost function Set(s: Store, n: Elem, e: Cell): Store {
    s.(mem := s.mem[n := e])
  }

  method SetLeft(h: Head, n: Elem, p: Elem?, ghost s: Store) returns (ghost s': Store)
    requires Holds(h, s) && n in s.mem
    modifies n`speLeft
    ensures Holds(h, s') && s' == Set(s, n, s.mem[n].(left := p))
    ensures s'.mem.Keys == s.mem.Keys
  {
    n.speLeft := p;
    s' := Set(s, n, s.mem[n].(left := p));
  }

  method SetRight(h: Head, n: Elem, p: Elem?, ghost s: Store) returns (ghost s': Store)
    requires Holds(h, s) && n in s.mem
    modifies n`speRight
    ensures Holds(h, s') && s' == Set(s, n, s.mem[n].(right := p))
    ensures s'.mem.Keys == s.mem.Keys
  {
    n.speRight := p;
    s' := Set(s, n, s.mem[n].(right := p));
  }

  method SetRoot(h: Head, n: Elem?, ghost s: Store) returns (ghost s': Store)
    requires Holds(h, s)
    modifies h`root
    ensures Holds(h, s') && s' == s.(root := n)
  {
    h.root := n;
    s' := s.(root := n);
  }

  // ---------- what a store represents ----------

  /** The nodes of `t` are all different and linked as `t` says. */
  ghost predicate Rep(m: Mem, t: Tree) {
    match t
    case Nil => true
    case Bin(l, n, r) =>
      && n in m && m[n] == Cell(Root(l), Root(r))
      && n !in Nodes(l) && n !in Nodes(r) && Nodes(l) !! Nodes(r)
      && Rep(m, l) && Rep(m, r)
  }

  /** The node whose free link the next node is hung on: the last one, or the dummy `d`. */
  ghost function Tip(d: Elem, side: Side): Elem {
    if side.End? then d else side.node
  }

  /** A left side tree below the dummy's right link; the right link of its tip is still open. */
  ghost predicate LeftSide(m: Mem, d: Elem, side: Side) {
    d in m &&
    match side
    case End => true
    case Hang(up, n, sub) =>
      && n in m && m[n].left == Root(sub)
      && n != d && n !in Nodes(sub) && d !in Nodes(sub) && n !in SideNodes(up) && Nodes(sub) !! SideNodes(up)
      && Rep(m, sub)
      && LeftSide(m, d, up) && Tip(d, up) in m && m[Tip(d, up)].right == n
  }

  /** A right side tree below the dummy's left link; the left link of its tip is still open. */
  ghost predicate RightSide(m: Mem, d: Elem, side: Side) {
    d in m &&
    match side
    case End => true
    case Hang(up, n, sub) =>
      && n in m && m[n].right == Root(sub)
      && n != d && n !in Nodes(sub) && d !in Nodes(sub) && n !in SideNodes(up) && Nodes(sub) !! SideNodes(up)
      && Rep(m, sub)
      && RightSide(m, d, up) && Tip(d, up) in m && m[Tip(d, up)].left == n
  }

  lemma {:induction false} Keep(m: Mem, n: Elem, e: Cell, t: Tree)
    requires Rep(m, t) && n !in Nodes(t)
    ensures Rep(m[n := e], t)
  {
    if t.Nil? {
    } else {
      Keep(m, n, e, t.left);
      Keep(m, n, e, t.right);
    }
  }

  /** Writing to a node outside a left side tree, or to an open link of it, keeps it. */
  lemma {:induction false} KeepLeft(m: Mem, n: Elem, e: Cell, d: Elem, side: Side)
    requires LeftSide(m, d, side)
    requires n !in SideNodes(side) || (side.Hang? && n == side.node && n in m && e.left == m[n].left)
    requires n == d && side.Hang? ==> n in m && e.right == m[n].right
    ensures LeftSide(m[n := e], d, side)
  {
    if side.End? {
    } else {
      Keep(m, n, e, side.sub);
      KeepLeft(m, n, e, d, side.up);
    }
  }

  lemma {:induction false} KeepRight(m: Mem, n: Elem, e: Cell, d: Elem, side: Side)
    requires RightSide(m, d, side)
    requires n !in SideNodes(side) || (side.Hang? && n == side.node && n in m && e.right == m[n].right)
    requires n == d && side.Hang? ==> n in m && e.left == m[n].left
    ensures RightSide(m[n := e], d, side)
  {
    if side.End? {
    } else {
      Keep(m, n, e, side.sub);
      KeepRight(m, n, e, d, side.up);
    }
  }

  /** Filling the open link of a left side tree makes it a tree below the dummy's right link. */
  lemma {:induction false} FillLeft(m: Mem, d: Elem, side: Side, t: Tree)
    requires LeftSide(m, d, side) && Rep(m, t) && Nodes(t) !! SideNodes(side) && m[Tip(d, side)].right == Root(t)
    requires d !in SideNodes(side) && d !in Nodes(t)
    ensures Rep(m, CloseLeft(side, t)) && m[d].right == Root(CloseLeft(side, t))
    ensures Nodes(CloseLeft(side, t)) == SideNodes(side) + Nodes(t)
    decreases side
  {
    if side.End? {
    } else {
      FillLeft(m, d, side.up, Bin(side.sub, side.node, t));
    }
  }

  lemma {:induction false} FillRight(m: Mem, d: Elem, side: Side, t: Tree)
    requires RightSide(m, d, side) && Rep(m, t) && Nodes(t) !! SideNodes(side) && m[Tip(d, side)].left == Root(t)
    requires d !in SideNodes(side) && d !in Nodes(t)
    ensures Rep(m, CloseRight(side, t)) && m[d].left == Root(CloseRight(side, t))
    ensures Nodes(CloseRight(side, t)) == SideNodes(side) + Nodes(t)
    decreases side
  {
    if side.End? {
    } else {
      FillRight(m, d, side.up, Bin(t, side.node, side.sub));
    }
  }

  /** Forgetting a node that is not in the tree. */
  lemma {:induction false} Forget(m: Mem, n: Elem, t: Tree)
    requires Rep(m, t) && n !in Nodes(t)
    ensures Rep(m - {n}, t)
  {
    if t.Nil? {
    } else {
      Forget(m, n, t.left);
      Forget(m, n, t.right);
    }
  }
}
