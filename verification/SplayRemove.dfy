/** `SPLAY_REMOVE`: the root is taken out and its two subtrees are joined by a second splay. */
module SplayRemove {
  import opened Order
  import opened Entries
  import opened OrderedSet
  import opened SplayStore
  import opened TopDownSplay
  import opened SplayAccount
  import opened SplayTree

  /** The part of a snapshot that is about the nodes `ks`. */
  ghost function Only(m: Mem, ks: set<Elem>): Mem {
    map n | n in ks && n in m :: m[n]
  }

  /** A tree only depends on what its own nodes hold. */
  lemma {:induction false} Agree(m: Mem, m': Mem, t: Tree)
    requires Rep(m, t) && forall n <- Nodes(t) :: n in m && n in m' && m'[n] == m[n]
    ensures Rep(m', t)
  {
    if t.Nil? {
    } else {
      Agree(m, m', t.left);
      Agree(m, m', t.right);
    }
  }

  lemma {:induction false} SomethingAbove(cmp: Compare, a: seq<Elem>, n: Elem, b: seq<Elem>, k: Key)
    requires TotalOrder(cmp) && AllAbove(cmp, Keys(b), k) && b != []
    ensures !AllBelow(cmp, Keys(a + [n] + b), k)
  {
    var s := Keys(a + [n] + b);
    assert s[|a| + 1] == Keys(b)[0];
  }

  /** Splaying a tree whose keys are all below `k` to `k` leaves no right child at the root. */
  lemma {:induction false} NothingRight(cmp: Compare, t: Tree, k: Key)
    requires TotalOrder(cmp) && Parted(cmp, t, k) && AllBelow(cmp, Keys(InOrder(t)), k)
    ensures t.right.Nil?
  {
    if InOrder(t.right) != [] {
      SomethingAbove(cmp, InOrder(t.left), t.node, InOrder(t.right), k);
    }
  }

  lemma {:induction false} Apart(m: Mem, t: Tree)
    requires Rep(m, t) && t.Bin?
    ensures Nodes(t.left) !! Nodes(t.right) && t.node !in Nodes(t.left) && t.node !in Nodes(t.right)
    ensures forall n <- Nodes(t.left) + Nodes(t.right) :: n in m
  {
    NodesIn(m, t);
  }

  /** The second splay, on the left subtree `a` alone; the right subtree `b` stays as it is. */
  method SplayLeftPart(h: Head, elm: Elem, ghost s0: Store, ghost a: Tree, ghost b: Tree)
    returns (ghost s: Store, ghost a': Tree, ghost rounds: nat)
    requires Holds(h, s0) && Tall(s0, a) && Rep(s0.mem, b) && Nodes(a) !! Nodes(b)
    requires TotalOrder(h.cmp) && Sorted(h.cmp, Keys(InOrder(a)))
    modifies h`root, Nodes(a)`speLeft, Nodes(a)`speRight
    ensures Holds(h, s) && s.mem.Keys == s0.mem.Keys && Tall(s, a') && Rep(s.mem, b)
    ensures InOrder(a') == InOrder(a) && Nodes(a') == Nodes(a) && Parted(h.cmp, a', elm.key)
    ensures a' == Splayed(h.cmp, a, elm.key) && rounds <= Rounds(h.cmp, a, elm.key)
  {
    NodesIn(s0.mem, a);
    NodesIn(s0.mem, b);
    ghost var part := Store(s0.root, Only(s0.mem, Nodes(a)));
    Agree(s0.mem, part.mem, a);
    assert part.mem.Keys == Nodes(a);
    ghost var part';
    part', a', rounds := Splay(h, elm, part, a);
    NodesWithin(a, a');
    NodesWithin(a', a);
    s := Store(part'.root, s0.mem + part'.mem);
    Agree(part'.mem, s.mem, a');
    Agree(s0.mem, s.mem, b);
  }

  lemma {:induction false} NodeInOrder(t: Tree, n: Elem)
    ensures n in Nodes(t) <==> n in InOrder(t)
  {
    NodesInOrder(t);
  }

  lemma {:induction false} NodesWithin(t: Tree, t': Tree)
    requires InOrder(t') == InOrder(t)
    ensures Nodes(t) <= Nodes(t')
  {
    forall n | n in Nodes(t)
      ensures n in Nodes(t')
    {
      NodeInOrder(t, n);
      NodeInOrder(t', n);
    }
  }

  /** The root is unlinked: what is left is the right subtree, or the left one with the right one
      below its largest node. */
  method Unroot(h: Head, elm: Elem, ghost s0: Store, ghost t: Tree)
    returns (ghost s: Store, ghost shape: Tree, ghost rounds: nat)
    requires Holds(h, s0) && Tall(s0, t) && Parted(h.cmp, t, elm.key)
    requires TotalOrder(h.cmp) && Sorted(h.cmp, Keys(InOrder(t.left)))
    modifies h`root, s0.mem.Keys`speLeft, s0.mem.Keys`speRight
    ensures Holds(h, s) && s.mem.Keys == s0.mem.Keys && s.root == Root(shape) && Rep(s.mem, shape)
    ensures InOrder(shape) == InOrder(t.left) + InOrder(t.right)
    ensures t.node !in Nodes(shape)
    ensures shape == Joined(h.cmp, t, elm.key) && rounds <= Rounds(h.cmp, t.left, elm.key)
  {
    ghost var a, b := t.left, t.right;
    Apart(s0.mem, t);
    if h.root.speLeft == null {
      s := SetRoot(h, h.root.speRight, s0);
      shape, rounds := b, 0;
    } else {
      var tmp := h.root.speRight;
      s := SetRoot(h, h.root.speLeft, s0);
      ghost var a';
      s, a', rounds := SplayLeftPart(h, elm, s, a, b);
      NothingRight(h.cmp, a', elm.key);
      shape := Bin(a'.left, a'.node, b);
      ghost var s1 := s;
      s := SetRight(h, h.root, tmp, s1);
      KeepTwo(s1.mem, a'.node, s.mem[a'.node], a'.left, b);
      assert InOrder(a') == InOrder(a'.left) + [a'.node];
    }
  }

  ghost method CommitWithout(h: Head, s: Store, all: seq<Elem>, at: nat, gone: Elem, shape: Tree)
    requires Holds(h, s) && s.root == Root(shape) && Rep(s.mem, shape) && gone !in Nodes(shape)
    requires Tracks(s.mem, all) && TakeOut(all, at, gone, InOrder(shape))
    requires TotalOrder(h.cmp) && Sorted(h.cmp, Keys(all))
    modifies h`store, h`shape
    ensures Valid(h) && h.shape == shape && h.store.mem.Keys <= s.mem.Keys
  {
    TakeOutSorted(h.cmp, s.mem, all, at, gone, InOrder(shape));
    Forget(s.mem, gone, shape);
    Commit(h, s.(mem := s.mem - {gone}), shape);
  }

  lemma {:induction false} RootOut(t: Tree)
    requires t.Bin?
    ensures TakeOut(InOrder(t), |InOrder(t.left)|, t.node, InOrder(t.left) + InOrder(t.right))
  {
    TakeOutBetween(InOrder(t.left), t.node, InOrder(t.right));
  }

  /** The part after the first splay, when the root is equal to `elm`. */
  method RemoveRoot(h: Head, elm: Elem) returns (ghost at: nat, ghost gone: Elem, ghost rounds: nat)
    requires Valid(h) && h.root != null && Parted(h.cmp, h.shape, elm.key)
    modifies h, h.store.mem.Keys`speLeft, h.store.mem.Keys`speRight
    ensures Valid(h) && h.store.mem.Keys <= old(h.store.mem.Keys)
    ensures gone == old(h.root) && TakeOut(old(Elements(h)), at, gone, Elements(h))
    ensures h.shape == Joined(h.cmp, old(h.shape), elm.key) && rounds <= Rounds(h.cmp, old(h.shape).left, elm.key)
  {
    ghost var s0, t := h.store, h.shape;
    SubtreesSorted(h.cmp, t);
    ghost var s, shape;
    s, shape, rounds := Unroot(h, elm, s0, t);
    at, gone := |InOrder(t.left)|, t.node;
    RootOut(t);
    TracksSame(s0.mem, s.mem, InOrder(t));
    CommitWithout(h, s, InOrder(t), at, gone, shape);
  }

  /** Takes out the node `gone` that is equal to `elm`, and returns the argument `elm` itself, which is
      that node if and only if it was in the tree; null if there is no equal node. */
  method Remove(h: Head, elm: Elem) returns (r: Elem?, ghost at: nat, ghost gone: Elem, ghost rounds: nat)
    requires Valid(h)
    modifies h, h.store.mem.Keys`speLeft, h.store.mem.Keys`speRight
    ensures Valid(h) && h.store.mem.Keys <= old(h.store.mem.Keys)
    ensures r == null ==> Elements(h) == old(Elements(h)) && NoneIn(h.cmp, Elements(h), elm.key)
    ensures r != null ==> r == elm && h.cmp(elm.key, gone.key) == 0 && TakeOut(old(Elements(h)), at, gone, Elements(h))
    ensures r != null ==> (r == gone <==> elm in old(Elements(h)))
    ensures h.shape == AfterTake(h.cmp, old(h.shape), elm.key) && rounds <= TakeRounds(h.cmp, old(h.shape), elm.key)
  {
    at, gone, rounds := 0, elm, 0;
    if h.root == null {
      return null, at, gone, 0;
    }
    rounds := SplayTo(h, elm);
    AtRoot(h.cmp, h.shape, elm.key);
    if h.cmp(elm.key, h.root.key) == 0 {
      ghost var more;
      assert h.cmp(elm.key, elm.key) == 0;
      at, gone, more := RemoveRoot(h, elm);
      return elm, at, gone, rounds + more;
    }
    return null, at, gone, rounds;
  }

  /** A case where the node returned is not the one taken out: the tree holds `a` alone, and the removal
      is asked for with a second element of the same key, as for a search. */
  method RemoveByTwin(cmp: Compare, k: Key) returns (h: Head, a: Elem, r: Elem?, ghost gone: Elem)
    requires TotalOrder(cmp)
    ensures Valid(h) && Elements(h) == [] && gone == a && r != null && r != gone
  {
    hide AfterPut, AfterTake, Rounds, TakeRounds;
    h := new Head(cmp);
    a := new Elem(k);
    var twin := new Elem(k);
    var other;
    ghost var at, rounds;
    other, at, rounds := Insert(h, a);
    assert Elements(h) == [a];
    assert cmp(k, k) == 0;
    r, at, gone, rounds := Remove(h, twin);
    OnlyOne(a, at, gone, Elements(h));
  }

  lemma {:induction false} OnlyOne(a: Elem, at: nat, n: Elem, s: seq<Elem>)
    requires TakeOut([a], at, n, s)
    ensures n == a && s == []
  {
  }
}
