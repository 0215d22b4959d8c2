/** What each splay tree operation does to the shape of the tree, and in how many rounds of splaying. */
module SplayAccount {
  import opened Order
  import opened Entries
  import opened OrderedSet
  import opened SplayStore
  import opened SplayPart

  ghost function Splayed(cmp: Compare, t: Tree, k: Key): Tree {
    if t.Nil? then t else Whole(Part(cmp, t, k))
  }

  /** The rounds of the loop: one for each step, and one more that may find nothing to do. */
  ghost function Rounds(cmp: Compare, t: Tree, k: Key): nat {
    if t.Nil? then 0 else Part(cmp, t, k).steps + 1
  }

  /** A comparison that always finds the key at the same end of the tree. */
  function Always(comp: int): Compare {
    (a, b) => comp
  }

  /** A splay to the least (greatest) element, for a negative (positive) `comp`. */
  ghost function EndSplayed(comp: int, t: Tree): Tree {
    if t.Nil? then t else Splayed(Always(comp), t, t.node.key)
  }

  ghost function EndRounds(comp: int, t: Tree): nat {
    if t.Nil? then 0 else Rounds(Always(comp), t, t.node.key)
  }

  /** The tree that an insertion at the root leaves. */
  ghost function Inserted(t: Tree, elm: Elem, less: bool): Tree
    requires t.Bin?
  {
    if less then Bin(t.left, elm, Bin(Nil, t.node, t.right)) else Bin(Bin(t.left, t.node, Nil), elm, t.right)
  }

  ghost function AfterPut(cmp: Compare, t: Tree, elm: Elem): Tree {
    if t.Nil? then Bin(Nil, elm, Nil)
    else
      var s := Splayed(cmp, t, elm.key);
      var comp := cmp(elm.key, s.node.key);
      if comp == 0 then s else Inserted(s, elm, comp < 0)
  }

  /** The right part below the root of the left part. */
  ghost function Joined(cmp: Compare, t: Tree, k: Key): Tree
    requires t.Bin?
  {
    if t.left.Nil? then t.right
    else
      var a := Splayed(cmp, t.left, k);
      Bin(a.left, a.node, t.right)
  }

  ghost function AfterTake(cmp: Compare, t: Tree, k: Key): Tree {
    var s := Splayed(cmp, t, k);
    if s.Bin? && cmp(k, s.node.key) == 0 then Joined(cmp, s, k) else s
  }

  ghost function TakeRounds(cmp: Compare, t: Tree, k: Key): nat {
    var s := Splayed(cmp, t, k);
    Rounds(cmp, t, k) + if s.Bin? && cmp(k, s.node.key) == 0 then Rounds(cmp, s.left, k) else 0
  }

  ghost function OpShape(cmp: Compare, t: Tree, op: Op): Tree {
    match op
    case Put(e) => AfterPut(cmp, t, e)
    case Take(e) => AfterTake(cmp, t, e.key)
    case Seek(e) => Splayed(cmp, t, e.key)
    case Least => EndSplayed(-1, t)
    case Greatest => EndSplayed(1, t)
  }

  ghost function OpRounds(cmp: Compare, t: Tree, op: Op): nat {
    match op
    case Put(e) => Rounds(cmp, t, e.key)
    case Take(e) => TakeRounds(cmp, t, e.key)
    case Seek(e) => Rounds(cmp, t, e.key)
    case Least => EndRounds(-1, t)
    case Greatest => EndRounds(1, t)
  }

  /** The shape after a run of operations. */
  ghost function RunShape(cmp: Compare, t: Tree, ops: seq<Op>): Tree {
    if ops == [] then t else OpShape(cmp, RunShape(cmp, t, ops[..|ops| - 1]), ops[|ops| - 1])
  }

  /** The rounds of all the operations of a run together. */
  ghost function RunRounds(cmp: Compare, t: Tree, ops: seq<Op>): nat {
    if ops == [] then 0
    else RunRounds(cmp, t, ops[..|ops| - 1]) + OpRounds(cmp, RunShape(cmp, t, ops[..|ops| - 1]), ops[|ops| - 1])
  }

  /** The shape `u` and at most `rounds` rounds are what the first `i` operations come to. */
  ghost predicate Accounts(cmp: Compare, t: Tree, ops: seq<Op>, i: nat, u: Tree, rounds: nat) {
    i <= |ops| && u == RunShape(cmp, t, ops[..i]) && rounds <= RunRounds(cmp, t, ops[..i])
  }

  lemma {:induction false} AccountsOne(cmp: Compare, t: Tree, ops: seq<Op>, i: nat, u: Tree, rounds: nat, more: nat)
    requires Accounts(cmp, t, ops, i, u, rounds) && i < |ops| && more <= OpRounds(cmp, u, ops[i])
    ensures Accounts(cmp, t, ops, i + 1, OpShape(cmp, u, ops[i]), rounds + more)
  {
    assert ops[..i + 1][..i] == ops[..i];
  }

  lemma {:induction false} AccountsAll(cmp: Compare, t: Tree, ops: seq<Op>, u: Tree, rounds: nat)
    requires Accounts(cmp, t, ops, |ops|, u, rounds)
    ensures u == RunShape(cmp, t, ops) && rounds <= RunRounds(cmp, t, ops)
  {
    assert ops[..|ops|] == ops;
  }
}
