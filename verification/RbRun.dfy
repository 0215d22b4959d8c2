/** Runs of red-black tree operations refine an ordered set. */
module RbRun {
  import opened Entries
  import opened OrderedSet
  import opened RbStore
  import opened RbTree
  import RbSearch
  import RbInsert
  import RbRemove

  /** `RB_REMOVE` wants a node of the tree, which `RB_FIND` gives. */
  method PerformTake(h: Head, e: Elem) returns (r: Elem?)
    requires Valid(h)
    modifies h, h.store.mem.Keys`left, h.store.mem.Keys`right, h.store.mem.Keys`parent, h.store.mem.Keys`color
    ensures Valid(h) && h.store.mem.Keys <= old(h.store.mem.Keys)
    ensures AsSet(Elements(h)) == Step(h.cmp, old(AsSet(Elements(h))), Take(e))
    ensures Answer(h.cmp, old(AsSet(Elements(h))), Take(e), r, false)
  {
    hide Valid, Equals, RbSearch.WithinBound;
    Ordered(h);
    ghost var cmp, s, at, rotations, steps, rounds := h.cmp, Elements(h), 0, 0, 0, 0;
    r, steps := RbSearch.Find(h, e);
    ghost var gone := r;
    if r != null {
      r, at, rotations, steps, rounds := RbRemove.Remove(h, r);
    }
    TakeStep(cmp, s, e, gone, at, Elements(h));
  }

  lemma {:induction false} AddsKeys(m: Mem, m': Mem, n: Elem)
    requires Adds(m, m', n)
    ensures m'.Keys == m.Keys + {n}
  {
    assert forall k :: k in m' <==> k in m.Keys + {n};
  }

  method PerformPut(h: Head, e: Elem) returns (r: Elem?)
    requires Valid(h)
    modifies h, h.store.mem.Keys`left, h.store.mem.Keys`right, h.store.mem.Keys`parent, h.store.mem.Keys`color
    modifies e`left, e`right, e`parent, e`color
    ensures Valid(h) && h.store.mem.Keys <= old(h.store.mem.Keys) + {e}
    ensures AsSet(Elements(h)) == Step(h.cmp, old(AsSet(Elements(h))), Put(e))
    ensures Answer(h.cmp, old(AsSet(Elements(h))), Put(e), r, false)
  {
    hide Valid, Equals, Adds, RbSearch.WithinBound;
    Ordered(h);
    ghost var m, s, at, rotations, steps, rounds := h.store.mem, Elements(h), 0, 0, 0, 0;
    r, at, rotations, steps, rounds := RbInsert.Insert(h, e);
    PutStep(h.cmp, s, e, r, at, Elements(h), false);
    if r == null {
      AddsKeys(m, h.store.mem, e);
    }
  }

  /** One operation. */
  method Perform(h: Head, op: Op) returns (r: Elem?)
    requires Valid(h)
    modifies h, h.store.mem.Keys`left, h.store.mem.Keys`right, h.store.mem.Keys`parent, h.store.mem.Keys`color
    modifies Named(op)`left, Named(op)`right, Named(op)`parent, Named(op)`color
    ensures Valid(h) && h.store.mem.Keys <= old(h.store.mem.Keys) + Named(op)
    ensures AsSet(Elements(h)) == Step(h.cmp, old(AsSet(Elements(h))), op)
    ensures Answer(h.cmp, old(AsSet(Elements(h))), op, r, false)
  {
    hide Valid, Equals, RbSearch.WithinBound;
    Ordered(h);
    ghost var s, steps := Elements(h), 0;
    match op
    case Put(e) =>
      r := PerformPut(h, e);
    case Take(e) =>
      r := PerformTake(h, e);
    case Seek(e) =>
      r, steps := RbSearch.Find(h, e);
      SeekStep(h.cmp, s, e, r, false);
    case Least =>
      r, steps := RbSearch.MinMax(h, -1);
      LeastStep(h.cmp, s, false);
    case Greatest =>
      r, steps := RbSearch.MinMax(h, 1);
      GreatestStep(h.cmp, s, false);
  }

  /** Any run of `RB_INSERT`, `RB_REMOVE`, `RB_FIND`, `RB_MIN` and `RB_MAX`, from any tree. A removal answers
      with the node it has taken out. */
  method Run(h: Head, ops: seq<Op>) returns (rs: seq<Elem?>)
    requires Valid(h)
    modifies h, h.store.mem.Keys`left, h.store.mem.Keys`right, h.store.mem.Keys`parent, h.store.mem.Keys`color
    modifies Args(ops)`left, Args(ops)`right, Args(ops)`parent, Args(ops)`color
    ensures Valid(h) && |rs| == |ops| && h.store.mem.Keys <= old(h.store.mem.Keys) + Args(ops)
    ensures Explains(h.cmp, old(AsSet(Elements(h))), ops, rs, AsSet(Elements(h)), false)
  {
    rs := [];
    ghost var s0, ks := AsSet(Elements(h)), h.store.mem.Keys + Args(ops);
    while |rs| < |ops|
      invariant Valid(h) && h.store.mem.Keys <= ks
      invariant Explains(h.cmp, s0, ops, rs, AsSet(Elements(h)), false)
    {
      ghost var s := AsSet(Elements(h));
      var r := Perform(h, ops[|rs|]);
      ExplainsOne(h.cmp, s0, ops, rs, s, r, false);
      rs := rs + [r];
    }
  }
}
