/** The splay tree between two operations, and the operations: insert, remove, find, minimum and maximum. */
module SplayTree {
  import opened Order
  import opened Entries
  import opened OrderedSet
  import opened SplayStore
  import opened TopDownSplay
  import opened SplayAccount

  /** The head holds `h.shape`: linked by the pointers, ascending in the keys. */
  ghost predicate Valid(h: Head)
    reads h, h.store.mem.Keys`speLeft, h.store.mem.Keys`speRight
  {
    && Holds(h, h.store) && h.store.root == Root(h.shape) && Rep(h.store.mem, h.shape)
    && Tracks(h.store.mem, InOrder(h.shape))
    && TotalOrder(h.cmp) && Sorted(h.cmp, Keys(InOrder(h.shape)))
  }

  /** The nodes of the tree in ascending order. */
  ghost function Elements(h: Head): seq<Elem>
    reads h
  {
    InOrder(h.shape)
  }

  /** What the sequence of a valid tree is known to be. */
  lemma {:induction false} Ordered(h: Head)
    requires Valid(h)
    ensures TotalOrder(h.cmp) && Sorted(h.cmp, Keys(Elements(h)))
  {
  }

  ghost method Commit(h: Head, s: Store, shape: Tree)
    requires Holds(h, s) && s.root == Root(shape) && Rep(s.mem, shape) && Tracks(s.mem, InOrder(shape))
    requires TotalOrder(h.cmp) && Sorted(h.cmp, Keys(InOrder(shape)))
    modifies h`store, h`shape
    ensures Valid(h) && h.store == s && h.shape == shape
  {
    h.store, h.shape := s, shape;
  }

  /** `SPLAY` on a whole tree: the shape changes, the elements do not. */
  method SplayTo(h: Head, elm: Elem) returns (ghost rounds: nat)
    requires Valid(h) && h.root != null
    modifies h, h.store.mem.Keys`speLeft, h.store.mem.Keys`speRight
    ensures Valid(h) && Elements(h) == old(Elements(h)) && h.store.mem.Keys == old(h.store.mem.Keys)
    ensures Parted(h.cmp, h.shape, elm.key)
    ensures h.shape == Splayed(h.cmp, old(h.shape), elm.key)
    ensures Rounds(h.cmp, old(h.shape), elm.key) - 1 <= rounds <= Rounds(h.cmp, old(h.shape), elm.key)
  {
    ghost var s0 := h.store;
    ghost var s, shape;
    s, shape, rounds := Splay(h, elm, s0, h.shape);
    TracksSame(s0.mem, s.mem, InOrder(shape));
    Commit(h, s, shape);
  }

  lemma {:induction false} TracksSame(m: Mem, m': Mem, s: seq<Elem>)
    requires Tracks(m, s) && m'.Keys == m.Keys
    ensures Tracks(m', s)
  {
    assert forall n :: n in m <==> n in m.Keys;
    assert forall n :: n in m' <==> n in m'.Keys;
  }

  /** A tree parted at `k` holds a node equal to `k` exactly if the root is one. */
  lemma {:induction false} AtRoot(cmp: Compare, t: Tree, k: Key)
    requires Parted(cmp, t, k)
    ensures t.node in InOrder(t)
    ensures forall n :: n in InOrder(t) && cmp(k, n.key) == 0 ==> n == t.node
  {
    NoneEqual(cmp, InOrder(t.left), k);
    NoneEqual(cmp, InOrder(t.right), k);
  }

  /** The node with the key of `elm`, or null if there is none. */
  method Find(h: Head, elm: Elem) returns (r: Elem?, ghost rounds: nat)
    requires Valid(h)
    modifies h, h.store.mem.Keys`speLeft, h.store.mem.Keys`speRight
    ensures Valid(h) && Elements(h) == old(Elements(h)) && h.store.mem.Keys == old(h.store.mem.Keys)
    ensures r != null ==> r in Elements(h) && h.cmp(elm.key, r.key) == 0
    ensures r == null ==> NoneIn(h.cmp, Elements(h), elm.key)
    ensures h.shape == Splayed(h.cmp, old(h.shape), elm.key) && rounds <= Rounds(h.cmp, old(h.shape), elm.key)
  {
    if h.root == null {
      return null, 0;
    }
    rounds := SplayTo(h, elm);
    AtRoot(h.cmp, h.shape, elm.key);
    if h.cmp(elm.key, h.root.key) == 0 {
      return h.root, rounds;
    }
    return null, rounds;
  }

  // ---------- insert ----------

  lemma {:induction false} InsertedInOrder(cmp: Compare, t: Tree, elm: Elem, at: nat)
    requires TotalOrder(cmp) && Parted(cmp, t, elm.key) && Sorted(cmp, Keys(InOrder(t)))
    requires cmp(elm.key, t.node.key) != 0
    requires at == |InOrder(t.left)| + if cmp(elm.key, t.node.key) < 0 then 0 else 1
    ensures var t' := Inserted(t, elm, cmp(elm.key, t.node.key) < 0);
      PutIn(InOrder(t), at, elm, InOrder(t')) && Sorted(cmp, Keys(InOrder(t')))
  {
    var l, r, n, k := InOrder(t.left), InOrder(t.right), [t.node], elm.key;
    ComparedAt(cmp, l, t.node, r, k);
    OneSided(t);
    if cmp(k, t.node.key) < 0 {
      Between(cmp, l, elm, n + r);
    } else {
      Between(cmp, l + n, elm, r);
    }
  }

  lemma {:induction false} OneSided(t: Tree)
    requires t.Bin?
    ensures InOrder(Bin(Nil, t.node, t.right)) == [t.node] + InOrder(t.right)
    ensures InOrder(Bin(t.left, t.node, Nil)) == InOrder(t.left) + [t.node]
    ensures InOrder(t) == InOrder(t.left) + ([t.node] + InOrder(t.right))
  {
  }

  lemma {:induction false} Between(cmp: Compare, a: seq<Elem>, n: Elem, b: seq<Elem>)
    requires TotalOrder(cmp) && Sorted(cmp, Keys(a + b)) && AllBelow(cmp, Keys(a), n.key)
    requires AllAbove(cmp, Keys(b), n.key)
    ensures PutIn(a + b, |a|, n, a + [n] + b) && Sorted(cmp, Keys(a + [n] + b))
  {
    PutInBetween(a, n, b);
    KeysConcat(a, b);
    SortedInsert(cmp, Keys(a), n.key, Keys(b));
  }

  /** `elm` becomes the root, with the old root's left subtree on its left and the rest on its right. */
  method PutBefore(h: Head, elm: Elem, ghost s0: Store, ghost t: Tree) returns (ghost s: Store)
    requires Holds(h, s0) && Tall(s0, t) && elm !in s0.mem && elm !in Nodes(t)
    modifies h`root, s0.mem.Keys`speLeft, s0.mem.Keys`speRight
    modifies elm`speLeft, elm`speRight
    ensures Holds(h, s) && s.mem.Keys == s0.mem.Keys + {elm}
    ensures Tall(s, Inserted(t, elm, true))
  {
    ghost var l, n, r := t.left, t.node, t.right;
    elm.speLeft := h.root.speLeft;
    elm.speRight := h.root;
    ghost var s1 := Set(s0, elm, Cell(elm.speLeft, elm.speRight));
    KeepTwo(s0.mem, elm, s1.mem[elm], l, r);
    s := SetLeft(h, h.root, null, s1);
    KeepTwo(s1.mem, n, s.mem[n], l, r);
    s := SetRoot(h, elm, s);
    RepBin(s.mem, Nil, n, r);
    RepBin(s.mem, l, elm, Bin(Nil, n, r));
  }

  /** `elm` becomes the root, with the old root's right subtree on its right and the rest on its left. */
  method PutAfter(h: Head, elm: Elem, ghost s0: Store, ghost t: Tree) returns (ghost s: Store)
    requires Holds(h, s0) && Tall(s0, t) && elm !in s0.mem && elm !in Nodes(t)
    modifies h`root, s0.mem.Keys`speLeft, s0.mem.Keys`speRight
    modifies elm`speLeft, elm`speRight
    ensures Holds(h, s) && s.mem.Keys == s0.mem.Keys + {elm}
    ensures Tall(s, Inserted(t, elm, false))
  {
    ghost var l, n, r := t.left, t.node, t.right;
    elm.speRight := h.root.speRight;
    elm.speLeft := h.root;
    ghost var s1 := Set(s0, elm, Cell(elm.speLeft, elm.speRight));
    KeepTwo(s0.mem, elm, s1.mem[elm], l, r);
    s := SetRight(h, h.root, null, s1);
    KeepTwo(s1.mem, n, s.mem[n], l, r);
    s := SetRoot(h, elm, s);
    RepBin(s.mem, l, n, Nil);
    RepBin(s.mem, Bin(l, n, Nil), elm, r);
  }

  lemma {:induction false} KeepTwo(m: Mem, n: Elem, e: Cell, a: Tree, b: Tree)
    requires Rep(m, a) && Rep(m, b) && n !in Nodes(a) && n !in Nodes(b)
    ensures Rep(m[n := e], a) && Rep(m[n := e], b)
  {
    Keep(m, n, e, a);
    Keep(m, n, e, b);
  }

  lemma {:induction false} TracksPutIn(m: Mem, m': Mem, s: seq<Elem>, at: nat, n: Elem, s': seq<Elem>)
    requires Tracks(m, s) && m'.Keys == m.Keys + {n} && PutIn(s, at, n, s')
    ensures Tracks(m', s')
  {
    assert s == s[..at] + s[at..];
    assert forall k :: k in m' <==> k in m || k == n;
    assert forall k :: k in s' <==> k in s || k == n;
  }

  /** The first element of an empty tree. */
  method InsertFirst(h: Head, elm: Elem)
    requires Valid(h) && h.root == null
    modifies h, elm`speLeft, elm`speRight
    ensures Valid(h) && h.shape == Bin(Nil, elm, Nil) && h.store.mem.Keys == {elm}
  {
    elm.speLeft, elm.speRight := null, null;
    h.root := elm;
    Commit(h, Store(elm, map[elm := Cell(null, null)]), Bin(Nil, elm, Nil));
  }

  /** `elm`, which differs from all keys, goes above the root that a splay has left. */
  method InsertAtRoot(h: Head, elm: Elem, comp: int) returns (ghost at: nat)
    requires Valid(h) && h.root != null && Parted(h.cmp, h.shape, elm.key)
    requires comp == h.cmp(elm.key, h.root.key) && comp != 0
    modifies h, h.store.mem.Keys`speLeft, h.store.mem.Keys`speRight
    modifies elm`speLeft, elm`speRight
    ensures Valid(h) && PutIn(old(Elements(h)), at, elm, Elements(h))
    ensures h.store.mem.Keys == old(h.store.mem.Keys) + {elm}
    ensures h.shape == Inserted(old(h.shape), elm, comp < 0)
  {
    ghost var s0, t := h.store, h.shape;
    AtRoot(h.cmp, t, elm.key);
    at := |InOrder(t.left)| + if comp < 0 then 0 else 1;
    InsertedInOrder(h.cmp, t, elm, at);
    assert elm !in s0.mem by { assert h.cmp(elm.key, elm.key) == 0; }
    NodesIn(s0.mem, t);
    ghost var s;
    if comp < 0 {
      s := PutBefore(h, elm, s0, t);
    } else {
      s := PutAfter(h, elm, s0, t);
    }
    TracksPutIn(s0.mem, s.mem, InOrder(t), at, elm, InOrder(Inserted(t, elm, comp < 0)));
    Commit(h, s, Inserted(t, elm, comp < 0));
  }

  /** `SPLAY_INSERT`: the node that is equal already, or null once `elm` is in the tree. */
  method Insert(h: Head, elm: Elem) returns (r: Elem?, ghost at: nat, ghost rounds: nat)
    requires Valid(h)
    modifies h, h.store.mem.Keys`speLeft, h.store.mem.Keys`speRight
    modifies elm`speLeft, elm`speRight
    ensures Valid(h)
    ensures r != null ==> r in Elements(h) && h.cmp(elm.key, r.key) == 0 && Elements(h) == old(Elements(h))
    ensures r != null && elm !in old(h.store.mem) ==> unchanged(elm)
    ensures r == null ==> NoneIn(h.cmp, old(Elements(h)), elm.key) && PutIn(old(Elements(h)), at, elm, Elements(h))
    ensures h.store.mem.Keys <= old(h.store.mem.Keys) + {elm}
    ensures h.shape == AfterPut(h.cmp, old(h.shape), elm) && rounds <= Rounds(h.cmp, old(h.shape), elm.key)
  {
    if h.root == null {
      InsertFirst(h, elm);
      return null, 0, 0;
    }
    rounds := SplayTo(h, elm);
    AtRoot(h.cmp, h.shape, elm.key);
    var comp := h.cmp(elm.key, h.root.key);
    if comp == 0 {
      return h.root, 0, rounds;
    }
    at := InsertAtRoot(h, elm, comp);
    r := null;
  }
}
