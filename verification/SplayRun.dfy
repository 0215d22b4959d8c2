/** Runs of splay tree operations refine an ordered set. */
module SplayRun {
  import opened Entries
  import opened OrderedSet
  import opened SplayStore
  import opened SplayAccount
  import opened SplayTree
  import opened Order
  import opened SplayWalk
  import SplayIterate
  import SplayRemove

  /** The operations for the ends. */
  method PerformEnd(h: Head, op: Op) returns (r: Elem?, ghost rounds: nat)
    requires Valid(h) && (op.Least? || op.Greatest?)
    modifies h, h.store.mem.Keys`speLeft, h.store.mem.Keys`speRight
    ensures Valid(h) && h.store.mem.Keys == old(h.store.mem.Keys) && Elements(h) == old(Elements(h))
    ensures Answer(h.cmp, AsSet(Elements(h)), op, r, true)
    ensures h.shape == OpShape(h.cmp, old(h.shape), op) && rounds <= OpRounds(h.cmp, old(h.shape), op)
  {
    if op.Least? {
      r, rounds := SplayIterate.MinMax(h, -1);
      LeastStep(h.cmp, Elements(h), true);
    } else {
      r, rounds := SplayIterate.MinMax(h, 1);
      GreatestStep(h.cmp, Elements(h), true);
    }
  }

  method Perform(h: Head, op: Op) returns (r: Elem?, ghost rounds: nat)
    requires Valid(h)
    modifies h, h.store.mem.Keys`speLeft, h.store.mem.Keys`speRight
    modifies Named(op)`speLeft, Named(op)`speRight
    ensures Valid(h) && h.store.mem.Keys <= old(h.store.mem.Keys) + Named(op)
    ensures AsSet(Elements(h)) == Step(h.cmp, old(AsSet(Elements(h))), op)
    ensures Answer(h.cmp, old(AsSet(Elements(h))), op, r, true)
    ensures h.shape == OpShape(h.cmp, old(h.shape), op) && rounds <= OpRounds(h.cmp, old(h.shape), op)
  {
    hide Valid, AfterPut, AfterTake, Splayed, Rounds, TakeRounds, EndSplayed, EndRounds, Equals;
    Ordered(h);
    ghost var cmp, s, at, gone := h.cmp, Elements(h), 0, h.root;
    match op
    case Put(e) =>
      r, at, rounds := Insert(h, e);
      PutStep(cmp, s, e, r, at, Elements(h), true);
    case Take(e) =>
      r, at, gone, rounds := SplayRemove.Remove(h, e);
      TakeStep(cmp, s, e, if r == null then null else gone, at, Elements(h));
    case Seek(e) =>
      r, rounds := Find(h, e);
      SeekStep(cmp, s, e, r, true);
    case _ =>
      r, rounds := PerformEnd(h, op);
  }

  /** After the operations answered by `rs`: contents, shape and rounds are as they should be. */
  ghost predicate Progress(h: Head, s0: set<Elem>, t0: Tree, ops: seq<Op>, rs: seq<Elem?>, rounds: nat)
    reads h
  {
    && Explains(h.cmp, s0, ops, rs, AsSet(Elements(h)), true)
    && Accounts(h.cmp, t0, ops, |rs|, h.shape, rounds)
  }

  /** The next operation of a run. */
  method RunOne(h: Head, ops: seq<Op>, rs0: seq<Elem?>, ghost s0: set<Elem>, ghost t0: Tree, ghost rounds0: nat)
    returns (rs: seq<Elem?>, ghost rounds: nat)
    requires Valid(h) && |rs0| < |ops| && Progress(h, s0, t0, ops, rs0, rounds0)
    modifies h, h.store.mem.Keys`speLeft, h.store.mem.Keys`speRight
    modifies Named(ops[|rs0|])`speLeft, Named(ops[|rs0|])`speRight
    ensures Valid(h) && h.store.mem.Keys <= old(h.store.mem.Keys) + Named(ops[|rs0|])
    ensures |rs| == |rs0| + 1 && Progress(h, s0, t0, ops, rs, rounds)
  {
    ghost var s, t, i := AsSet(Elements(h)), h.shape, |rs0|;
    var r;
    ghost var more;
    r, more := Perform(h, ops[|rs0|]);
    ExplainsOne(h.cmp, s0, ops, rs0, s, r, true);
    AccountsOne(h.cmp, t0, ops, i, t, rounds0, more);
    rs, rounds := rs0 + [r], rounds0 + more;
    assert |rs| == i + 1;
  }

  /** Any run of `SPLAY_INSERT`, `SPLAY_REMOVE`, `SPLAY_FIND`, `SPLAY_MIN` and `SPLAY_MAX`, from any tree:
      results and contents are those of an ordered set, where a removal answers with its argument; shape
      and number of rounds are those of the account. */
  method Run(h: Head, ops: seq<Op>) returns (rs: seq<Elem?>, ghost rounds: nat)
    requires Valid(h)
    modifies h, h.store.mem.Keys`speLeft, h.store.mem.Keys`speRight
    modifies Args(ops)`speLeft, Args(ops)`speRight
    ensures Valid(h) && |rs| == |ops| && h.store.mem.Keys <= old(h.store.mem.Keys) + Args(ops)
    ensures Explains(h.cmp, old(AsSet(Elements(h))), ops, rs, AsSet(Elements(h)), true)
    ensures h.shape == RunShape(h.cmp, old(h.shape), ops) && rounds <= RunRounds(h.cmp, old(h.shape), ops)
  {
    rs, rounds := [], 0;
    ghost var s0, t0, ks := AsSet(Elements(h)), h.shape, h.store.mem.Keys + Args(ops);
    while |rs| < |ops|
      invariant Valid(h) && h.store.mem.Keys <= ks
      invariant |rs| <= |ops| && Progress(h, s0, t0, ops, rs, rounds)
    {
      rs, rounds := RunOne(h, ops, rs, s0, t0, rounds);
    }
    AccountsAll(h.cmp, t0, ops, h.shape, rounds);
  }

  /** A tree that really comes about, and in which `SPLAY_NEXT` has no amortized bound below the number
      of nodes: `2 r + 2` calls build it from nothing, and then each of `m` calls follows `r` links. */
  method SlowNext(cmp: Compare, s: seq<Elem>, r: nat, m: nat) returns (h: Head, ghost walked: nat)
    requires TotalOrder(cmp) && Sorted(cmp, Keys(s)) && |s| == 2 * r + 1
    modifies AsSet(s)`speLeft, AsSet(s)`speRight
    ensures Valid(h) && Elements(h) != [] && Elements(h)[0] == s[0] && walked == m * r
  {
    hide RunShape, Walk, Puts;
    h := new Head(cmp);
    StuckRun(cmp, s, r);
    var rs;
    ghost var rounds;
    rs, rounds := Run(h, StuckOps(s));
    walked := SplayIterate.RepeatNext(h, m);
  }
}
