/** An element carries the fields of both trees, and can be in a red-black tree and in a splay tree at once. */
module BothTrees {
  import opened Entries
  import opened OrderedSet
  import RbStore
  import RbTree
  import RbRun
  import SplayStore
  import SplayTree
  import SplayRun

  /** Any run on the red-black tree `h` leaves the splay tree `g` as it is, whatever elements they share. */
  method RunRedBlack(h: RbStore.Head, g: SplayStore.Head, ops: seq<Op>) returns (rs: seq<Elem?>)
    requires RbTree.Valid(h) && SplayTree.Valid(g)
    modifies h, h.store.mem.Keys`left, h.store.mem.Keys`right, h.store.mem.Keys`parent, h.store.mem.Keys`color
    modifies Args(ops)`left, Args(ops)`right, Args(ops)`parent, Args(ops)`color
    ensures RbTree.Valid(h) && |rs| == |ops|
    ensures Explains(h.cmp, old(AsSet(RbTree.Elements(h))), ops, rs, AsSet(RbTree.Elements(h)), false)
    ensures SplayTree.Valid(g) && g.shape == old(g.shape)
    ensures forall n <- old(h.store.mem.Keys) + Args(ops) ::
      n.speLeft == old(n.speLeft) && n.speRight == old(n.speRight)
  {
    hide RbTree.Valid, Explains;
    rs := RbRun.Run(h, ops);
  }

  /** Any run on the splay tree `g` leaves the red-black tree `h` as it is. */
  method RunSplay(h: RbStore.Head, g: SplayStore.Head, ops: seq<Op>) returns (rs: seq<Elem?>)
    requires RbTree.Valid(h) && SplayTree.Valid(g)
    modifies g, g.store.mem.Keys`speLeft, g.store.mem.Keys`speRight, Args(ops)`speLeft, Args(ops)`speRight
    ensures SplayTree.Valid(g) && |rs| == |ops|
    ensures Explains(g.cmp, old(AsSet(SplayTree.Elements(g))), ops, rs, AsSet(SplayTree.Elements(g)), true)
    ensures RbTree.Valid(h) && h.shape == old(h.shape)
  {
    ghost var rounds;
    rs, rounds := SplayRun.Run(g, ops);
  }
}
