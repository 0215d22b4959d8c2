/** What the splay tree operations cost, amortized: the potential of a tree is the logarithm of its weight. */
module SplayCost {
  import opened Order
  import opened Entries
  import opened Power
  import opened SplayStore
  import opened OrderedSet
  import opened SplayPart
  import opened SplayAccount

  /** The cost of one splay in a tree of `n` nodes: two to the power of `1 + 3 lg n`. */
  ghost function SplayBudget(n: nat): nat {
    2 * (n * n * n)
  }

  /** Enough for any operation on a tree of fewer than `n` nodes: two to the power of `2 + 6 lg n`. */
  ghost function Budget(n: nat): nat {
    SplayBudget(n) * SplayBudget(n)
  }

  /** `rounds` rounds turn a tree of weight `w0` into one of weight `w`: the rounds are paid for by the
      budget, up to what they take off the potential. */
  ghost predicate Paid(rounds: nat, w: nat, budget: nat, w0: nat) {
    Pow2(rounds) * w <= budget * w0
  }

  lemma {:induction false} SizeInOrder(t: Tree)
    ensures Size(t) == |InOrder(t)|
  {
    if t.Nil? {
    } else {
      SizeInOrder(t.left);
      SizeInOrder(t.right);
    }
  }

  /** The rounds of a splay are paid for by its budget. */
  lemma {:induction false} SplayPaid(cmp: Compare, t: Tree, k: Key, rounds: nat)
    requires t.Bin? && rounds <= Part(cmp, t, k).steps + 1
    ensures Paid(rounds, Weight(Whole(Part(cmp, t, k))), SplayBudget(Size(t)), Weight(t))
  {
    var p := Part(cmp, t, k);
    var n, wl, wr := Size(t), Weight(p.left), Weight(p.right);
    PartSize(cmp, t, k);
    PartCost(cmp, t, k);
    Pow2Monotone(rounds, p.steps + 1);
    assert Weight(Whole(p)) == n * wl * wr;
    MulMonotone(Pow2(rounds), 2 * Pow2(p.steps), n * wl * wr);
    MulMonotone(Pow2(p.steps) * wl * wr, n * n * Weight(t), 2 * n);
    SplayProduct(n, Pow2(p.steps), wl, wr, Weight(t));
  }

  lemma {:induction false} SplayProduct(n: nat, p: nat, wl: nat, wr: nat, w: nat)
    ensures 2 * p * (n * wl * wr) == p * wl * wr * (2 * n)
    ensures n * n * w * (2 * n) == 2 * (n * n * n) * w
  {
  }

  lemma {:induction false} BudgetMonotone(a: nat, b: nat)
    requires a <= b
    ensures SplayBudget(a) <= SplayBudget(b) && Budget(a) <= Budget(b)
  {
    Times(a, b, a, b);
    Times(a * a, b * b, a, b);
    Times(SplayBudget(a), SplayBudget(b), SplayBudget(a), SplayBudget(b));
  }

  lemma {:induction false} BudgetBounds(n: nat)
    requires n >= 1
    ensures 2 * n <= SplayBudget(n) <= Budget(n)
  {
    Times(1, n, 1, n);
    MulMonotone(1, n * n, n);
    Times(1, SplayBudget(n), SplayBudget(n), SplayBudget(n));
  }

  lemma {:induction false} PaidMore(rounds: nat, w: nat, b: nat, b': nat, w0: nat)
    requires Paid(rounds, w, b, w0) && b <= b'
    ensures Paid(rounds, w, b', w0)
  {
    MulMonotone(b, b', w0);
  }

  /** What one splay and what comes after it cost together. */
  lemma {:induction false} PaidTwice(r1: nat, w1: nat, b1: nat, w0: nat, r2: nat, w2: nat, b2: nat)
    requires Paid(r1, w1, b1, w0) && Paid(r2, w2, b2, w1)
    ensures Paid(r1 + r2, w2, b2 * b1, w0)
  {
    Pow2Sum(r1, r2);
    TwiceBound(Pow2(r1), w1, b1, w0, Pow2(r2), w2, b2);
  }

  lemma {:induction false} TwiceBound(p1: nat, w1: nat, b1: nat, w0: nat, p2: nat, w2: nat, b2: nat)
    requires p1 * w1 <= b1 * w0 && p2 * w2 <= b2 * w1
    ensures p1 * p2 * w2 <= b2 * b1 * w0
  {
    MulMonotone(p2 * w2, b2 * w1, p1);
    MulMonotone(p1 * w1, b1 * w0, b2);
    TwiceProduct(p1, w1, b1, w0, p2, w2, b2);
  }

  lemma {:induction false} TwiceProduct(p1: nat, w1: nat, b1: nat, w0: nat, p2: nat, w2: nat, b2: nat)
    ensures p1 * p2 * w2 == p2 * w2 * p1
    ensures b2 * w1 * p1 == p1 * w1 * b2
    ensures b1 * w0 * b2 == b2 * b1 * w0
  {
  }

  /** Finding: one splay. */
  lemma {:induction false} FindPaid(rounds: nat, w: nat, n: nat, w0: nat)
    requires Paid(rounds, w, SplayBudget(n), w0)
    ensures Paid(rounds, w, Budget(n + 1), w0)
  {
    BudgetMonotone(n, n + 1);
    BudgetBounds(n + 1);
    PaidMore(rounds, w, SplayBudget(n), Budget(n + 1), w0);
  }

  /** Nothing done. */
  lemma {:induction false} IdlePaid(w: nat, n: nat)
    ensures Paid(0, w, Budget(n + 1), w)
  {
    BudgetBounds(n + 1);
    MulMonotone(1, Budget(n + 1), w);
  }

  /** Inserting: one splay, and a new root above the old one. */
  lemma {:induction false} InsertPaid(rounds: nat, w1: nat, n: nat, w0: nat, w2: nat)
    requires Paid(rounds, w1, SplayBudget(n), w0) && w2 <= (n + 1) * w1
    ensures Paid(rounds, w2, Budget(n + 1), w0)
  {
    PaidTwice(rounds, w1, SplayBudget(n), w0, 0, w2, n + 1);
    var b, b' := SplayBudget(n), SplayBudget(n + 1);
    assert b <= b' by { BudgetMonotone(n, n + 1); }
    assert n + 1 <= b' by { BudgetBounds(n + 1); }
    Times(n + 1, b', b, b');
    PaidMore(rounds, w2, (n + 1) * b, Budget(n + 1), w0);
  }

  /** Removing: two splays. */
  lemma {:induction false} RemovePaid(r1: nat, w1: nat, n: nat, w0: nat, r2: nat, w2: nat)
    requires Paid(r1, w1, SplayBudget(n), w0) && Paid(r2, w2, SplayBudget(n), w1)
    ensures Paid(r1 + r2, w2, Budget(n + 1), w0)
  {
    PaidTwice(r1, w1, SplayBudget(n), w0, r2, w2, SplayBudget(n));
    BudgetMonotone(n, n + 1);
    PaidMore(r1 + r2, w2, Budget(n), Budget(n + 1), w0);
  }

  /** The new root and the old one below it. */
  lemma {:induction false} InsertedWeight(a: Tree, n: Elem, b: Tree, elm: Elem)
    ensures var t := Bin(a, n, b);
      && Weight(Bin(a, elm, Bin(Nil, n, b))) <= (Size(t) + 1) * Weight(t)
      && Weight(Bin(Bin(a, n, Nil), elm, b)) <= (Size(t) + 1) * Weight(t)
  {
    var s, wa, wb := Size(Bin(a, n, b)), Weight(a), Weight(b);
    var x, y := Bin(Nil, n, b), Bin(a, n, Nil);
    assert Size(Nil) == 0;
    assert Size(x) == Size(Nil) + 1 + Size(b) && Size(y) == Size(a) + 1 + Size(Nil);
    WeightOf(a, n, b);
    WeightOf(Nil, n, b);
    WeightOf(a, n, Nil);
    WeightOf(a, elm, x);
    WeightOf(y, elm, b);
    NewRootBound(s, Size(x), wa, wb, Weight(x), Weight(Bin(a, elm, x)), Weight(Bin(a, n, b)));
    NewRootBound(s, Size(y), wb, wa, Weight(y), Weight(Bin(y, elm, b)), Weight(Bin(a, n, b)));
  }

  lemma {:induction false} NewRootBound(s: nat, x: nat, a: nat, b: nat, wx: nat, w: nat, wt: nat)
    requires x <= s && wx == x * (1 * b) && w == (s + 1) * (a * wx) && wt == s * (a * b)
    ensures w <= (s + 1) * wt
  {
    MulMonotone(x, s, a * b);
    assert a * (x * (1 * b)) == x * (a * b);
    MulMonotone(a * wx, wt, s + 1);
  }

  /** The left part, splayed to `a'`, takes the right part below its root. */
  lemma {:induction false} JoinedWeight(t: Tree, a': Tree)
    requires t.Bin? && a'.Bin? && Size(a') <= Size(t.left)
    ensures Weight(Bin(a'.left, a'.node, t.right)) <= Size(t) * Weight(t.right) * Weight(a')
  {
    WeightOf(a'.left, a'.node, a'.right);
    WeightOf(a'.left, a'.node, t.right);
    JoinedBound(Size(Bin(a'.left, a'.node, t.right)), Size(t), Weight(a'.left), Size(a'), Weight(a'.right),
        Weight(t.right));
  }

  lemma {:induction false} JoinedBound(s: nat, n: nat, u: nat, m: nat, v: nat, b: nat)
    requires s <= n && 1 <= m && 1 <= v
    ensures s * (u * b) <= n * b * (m * (u * v))
  {
    Times(1, m, 1, v);
    MulMonotone(1, m * v, u);
    MulMonotone(u, u * (m * v), b);
    Times(s, n, u * b, u * (m * v) * b);
    JoinedProduct(n, u, m, v, b);
  }

  lemma {:induction false} JoinedProduct(n: nat, u: nat, m: nat, v: nat, b: nat)
    ensures n * (u * (m * v) * b) == n * b * (m * (u * v))
    ensures m * v * u == u * (m * v)
  {
  }

  /** The second splay and the joining are within one more splay's budget. */
  lemma {:induction false} JoinedPaid(rounds: nat, t: Tree, a': Tree)
    requires t.Bin? && t.left.Bin? && a'.Bin? && Size(a') == Size(t.left)
    requires Paid(rounds, Weight(a'), SplayBudget(Size(t.left)), Weight(t.left))
    ensures Paid(rounds, Weight(Bin(a'.left, a'.node, t.right)), SplayBudget(Size(t)), Weight(t))
  {
    var n, b := Size(t), Weight(t.right);
    JoinedWeight(t, a');
    assert SplayBudget(Size(t.left)) <= SplayBudget(n) by { BudgetMonotone(Size(t.left), n); }
    PaidMore(rounds, Weight(a'), SplayBudget(Size(t.left)), SplayBudget(n), Weight(t.left));
    Beside(Pow2(rounds), Weight(Bin(a'.left, a'.node, t.right)), n * b, Weight(a'), SplayBudget(n), Weight(t.left));
    assert n * b * Weight(t.left) == Weight(t) by { BesideProduct(n, b, Weight(t.left)); }
  }

  lemma {:induction false} BesideProduct(n: nat, b: nat, a: nat)
    ensures n * b * a == n * a * b
  {
  }

  lemma {:induction false} Beside(p: nat, w: nat, c: nat, v: nat, budget: nat, w0: nat)
    requires w <= c * v && p * v <= budget * w0
    ensures p * w <= budget * (c * w0)
  {
    MulMonotone(w, c * v, p);
    MulMonotone(p * v, budget * w0, c);
    assert p * (c * v) == p * v * c && budget * w0 * c == budget * (c * w0);
  }

  lemma {:induction false} RightPaid(t: Tree)
    requires t.Bin?
    ensures Paid(0, Weight(t.right), SplayBudget(Size(t)), Weight(t))
  {
    var n := Size(t);
    BudgetBounds(n);
    Times(1, n, 1, Weight(t.left));
    MulMonotone(1, n * Weight(t.left), Weight(t.right));
    Times(1, SplayBudget(n), Weight(t.right), Weight(t));
  }

  // ---------- the operations ----------

  lemma {:induction false} SplayedSize(cmp: Compare, t: Tree, k: Key)
    ensures Size(Splayed(cmp, t, k)) == Size(t)
  {
    if t.Bin? {
      PartSize(cmp, t, k);
    }
  }

  lemma {:induction false} SplayedPaid(cmp: Compare, t: Tree, k: Key)
    requires t.Bin?
    ensures Paid(Rounds(cmp, t, k), Weight(Splayed(cmp, t, k)), SplayBudget(Size(t)), Weight(t))
  {
    SplayPaid(cmp, t, k, Rounds(cmp, t, k));
  }

  /** A new root above the one that the splay has left. */
  lemma {:induction false} NewRootPaid(rounds: nat, s: Tree, e: Elem, less: bool, w0: nat)
    requires s.Bin? && Paid(rounds, Weight(s), SplayBudget(Size(s)), w0)
    ensures Paid(rounds, Weight(Inserted(s, e, less)), Budget(Size(s) + 1), w0)
    ensures Size(Inserted(s, e, less)) == Size(s) + 1
  {
    assert Weight(Inserted(s, e, less)) <= (Size(s) + 1) * Weight(s) by { InsertedWeight(s.left, s.node, s.right, e); }
    InsertPaid(rounds, Weight(s), Size(s), w0, Weight(Inserted(s, e, less)));
    assert Size(Bin(Nil, s.node, s.right)) == 1 + Size(s.right) && Size(Bin(s.left, s.node, Nil)) == Size(s.left) + 1;
  }

  lemma {:induction false} PutPaid(cmp: Compare, t: Tree, e: Elem)
    ensures Paid(Rounds(cmp, t, e.key), Weight(AfterPut(cmp, t, e)), Budget(Size(t) + 1), Weight(t))
    ensures Size(AfterPut(cmp, t, e)) <= Size(t) + 1
  {
    if t.Nil? {
      FirstPaid(e);
    } else {
      var s, rounds := Splayed(cmp, t, e.key), Rounds(cmp, t, e.key);
      SplayedPaid(cmp, t, e.key);
      SplayedSize(cmp, t, e.key);
      if cmp(e.key, s.node.key) == 0 {
        FindPaid(rounds, Weight(s), Size(t), Weight(t));
      } else {
        NewRootPaid(rounds, s, e, cmp(e.key, s.node.key) < 0, Weight(t));
      }
    }
  }

  lemma {:induction false} FirstPaid(e: Elem)
    ensures Paid(0, Weight(Bin(Nil, e, Nil)), Budget(1), Weight(Nil)) && Size(Bin(Nil, e, Nil)) == 1
  {
    IdlePaid(1, 0);
    WeightOf(Nil, e, Nil);
  }

  lemma {:induction false} JoinPaid(cmp: Compare, s: Tree, k: Key)
    requires s.Bin?
    ensures Paid(Rounds(cmp, s.left, k), Weight(Joined(cmp, s, k)), SplayBudget(Size(s)), Weight(s))
    ensures Size(Joined(cmp, s, k)) <= Size(s)
  {
    if s.left.Nil? {
      RightPaid(s);
    } else {
      SplayedPaid(cmp, s.left, k);
      SplayedSize(cmp, s.left, k);
      JoinedPaid(Rounds(cmp, s.left, k), s, Splayed(cmp, s.left, k));
    }
  }

  /** The second splay, when the first has found an equal root. */
  lemma {:induction false} RootTakenPaid(cmp: Compare, rounds: nat, s: Tree, k: Key, w0: nat)
    requires s.Bin? && Paid(rounds, Weight(s), SplayBudget(Size(s)), w0)
    ensures Paid(rounds + Rounds(cmp, s.left, k), Weight(Joined(cmp, s, k)), Budget(Size(s) + 1), w0)
    ensures Size(Joined(cmp, s, k)) <= Size(s)
  {
    JoinPaid(cmp, s, k);
    RemovePaid(rounds, Weight(s), Size(s), w0, Rounds(cmp, s.left, k), Weight(Joined(cmp, s, k)));
  }

  lemma {:induction false} TakePaid(cmp: Compare, t: Tree, k: Key)
    ensures Paid(TakeRounds(cmp, t, k), Weight(AfterTake(cmp, t, k)), Budget(Size(t) + 1), Weight(t))
    ensures Size(AfterTake(cmp, t, k)) <= Size(t)
  {
    var s, rounds := Splayed(cmp, t, k), Rounds(cmp, t, k);
    if t.Nil? {
      IdlePaid(1, 0);
    } else {
      SplayedPaid(cmp, t, k);
      SplayedSize(cmp, t, k);
      if cmp(k, s.node.key) == 0 {
        RootTakenPaid(cmp, rounds, s, k, Weight(t));
      } else {
        FindPaid(rounds, Weight(s), Size(t), Weight(t));
      }
    }
  }

  lemma {:induction false} SeekPaid(cmp: Compare, t: Tree, k: Key)
    ensures Paid(Rounds(cmp, t, k), Weight(Splayed(cmp, t, k)), Budget(Size(t) + 1), Weight(t))
    ensures Size(Splayed(cmp, t, k)) == Size(t)
  {
    if t.Nil? {
      IdlePaid(1, 0);
    } else {
      SplayedPaid(cmp, t, k);
      SplayedSize(cmp, t, k);
      FindPaid(Rounds(cmp, t, k), Weight(Splayed(cmp, t, k)), Size(t), Weight(t));
    }
  }

  lemma {:induction false} EndPaid(comp: int, t: Tree)
    ensures Paid(EndRounds(comp, t), Weight(EndSplayed(comp, t)), Budget(Size(t) + 1), Weight(t))
    ensures Size(EndSplayed(comp, t)) == Size(t)
  {
    if t.Nil? {
      IdlePaid(1, 0);
    } else {
      SeekPaid(Always(comp), t, t.node.key);
    }
  }

  /** The amortized cost of any one operation on a tree of `n` nodes is at most `2 + 6 lg(n + 1)` rounds. */
  lemma {:induction false} OpPaid(cmp: Compare, t: Tree, op: Op)
    ensures Paid(OpRounds(cmp, t, op), Weight(OpShape(cmp, t, op)), Budget(Size(t) + 1), Weight(t))
    ensures Size(OpShape(cmp, t, op)) <= Size(t) + if op.Put? then 1 else 0
  {
    match op
    case Put(e) => PutPaid(cmp, t, e);
    case Take(e) => TakePaid(cmp, t, e.key);
    case Seek(e) => SeekPaid(cmp, t, e.key);
    case Least => EndPaid(-1, t);
    case Greatest => EndPaid(1, t);
  }

  // ---------- runs ----------

  /** The number of insertions in a run. */
  ghost function Puts(ops: seq<Op>): nat {
    if ops == [] then 0 else Puts(ops[..|ops| - 1]) + if ops[|ops| - 1].Put? then 1 else 0
  }

  lemma {:induction false} RunSize(cmp: Compare, t: Tree, ops: seq<Op>)
    ensures Size(RunShape(cmp, t, ops)) <= Size(t) + Puts(ops)
  {
    if ops == [] {
    } else {
      var rest := ops[..|ops| - 1];
      RunSize(cmp, t, rest);
      OpPaid(cmp, RunShape(cmp, t, rest), ops[|ops| - 1]);
    }
  }

  lemma {:induction false} OpWithin(cmp: Compare, u: Tree, op: Op, n: nat)
    requires Size(u) < n
    ensures Paid(OpRounds(cmp, u, op), Weight(OpShape(cmp, u, op)), Budget(n), Weight(u))
  {
    OpPaid(cmp, u, op);
    BudgetMonotone(Size(u) + 1, n);
    PaidMore(OpRounds(cmp, u, op), Weight(OpShape(cmp, u, op)), Budget(Size(u) + 1), Budget(n), Weight(u));
  }

  /** One operation more after `m` operations with the same budget. */
  lemma {:induction false} NextPaid(rounds: nat, w1: nat, b: nat, m: nat, w0: nat, more: nat, w2: nat)
    requires Paid(rounds, w1, Raise(b, m), w0) && Paid(more, w2, b, w1)
    ensures Paid(rounds + more, w2, Raise(b, m + 1), w0)
  {
    PaidTwice(rounds, w1, Raise(b, m), w0, more, w2, b);
  }

  lemma {:induction false} OpAfter(cmp: Compare, rounds: nat, u: Tree, op: Op, n: nat, m: nat, w0: nat)
    requires Size(u) < n && Paid(rounds, Weight(u), Raise(Budget(n), m), w0)
    ensures Paid(rounds + OpRounds(cmp, u, op), Weight(OpShape(cmp, u, op)), Raise(Budget(n), m + 1), w0)
  {
    OpWithin(cmp, u, op, n);
    NextPaid(rounds, Weight(u), Budget(n), m, w0, OpRounds(cmp, u, op), Weight(OpShape(cmp, u, op)));
  }

  /** A run of `m` operations on a tree that never holds `n` nodes or more takes at most
      `m (2 + 6 lg n)` rounds, and what the potential at the start allows besides. */
  lemma {:induction false} RunPaid(cmp: Compare, t: Tree, ops: seq<Op>, n: nat)
    requires Size(t) + Puts(ops) < n
    ensures Paid(RunRounds(cmp, t, ops), Weight(RunShape(cmp, t, ops)), Raise(Budget(n), |ops|), Weight(t))
  {
    hide Paid, Weight, OpShape, OpRounds;
    if ops == [] {
      NothingPaid(Budget(n), Weight(t));
    } else {
      var m := |ops| - 1;
      RunPaid(cmp, t, ops[..m], n);
      RunSize(cmp, t, ops[..m]);
      OpAfter(cmp, RunRounds(cmp, t, ops[..m]), RunShape(cmp, t, ops[..m]), ops[m], n, m, Weight(t));
    }
  }

  lemma {:induction false} NothingPaid(b: nat, w: nat)
    ensures Paid(0, w, Raise(b, 0), w)
  {
  }

  // ---------- sweeps ----------

  lemma {:induction false} PaidFewer(rounds: nat, more: nat, w: nat, b: nat, w0: nat)
    requires Paid(more, w, b, w0) && rounds <= more
    ensures Paid(rounds, w, b, w0)
  {
    Pow2Monotone(rounds, more);
    MulMonotone(Pow2(rounds), Pow2(more), w);
  }

  /** The rounds of one more splay of `n` nodes, after `i` of them. */
  lemma {:induction false} SweepPaid(cmp: Compare, t: Tree, k: Key, n: nat, rounds: nat, i: nat, w0: nat, more: nat)
    requires t.Bin? && Size(t) == n && Paid(rounds, Weight(t), Raise(SplayBudget(n), i), w0)
    requires more <= Rounds(cmp, t, k)
    ensures Paid(rounds + more, Weight(Splayed(cmp, t, k)), Raise(SplayBudget(n), i + 1), w0)
  {
    var b, t' := SplayBudget(n), Splayed(cmp, t, k);
    SplayedPaid(cmp, t, k);
    PaidFewer(more, Rounds(cmp, t, k), Weight(t'), b, Weight(t));
    NextPaid(rounds, Weight(t), b, i, w0, more, Weight(t'));
  }

  /** The Balance Theorem: on an initially empty tree, `m` operations with fewer than `n` insertions
      among them take at most `m (2 + 6 lg n)` rounds of splaying. */
  lemma {:induction false} Balance(cmp: Compare, ops: seq<Op>, n: nat, rounds: nat)
    requires Puts(ops) < n && rounds <= RunRounds(cmp, Nil, ops)
    ensures Pow2(rounds) <= Raise(Budget(n), |ops|)
  {
    var p, w := Pow2(RunRounds(cmp, Nil, ops)), Weight(RunShape(cmp, Nil, ops));
    RunPaid(cmp, Nil, ops, n);
    MulMonotone(1, w, p);
    Pow2Monotone(rounds, RunRounds(cmp, Nil, ops));
  }

  lemma {:induction false} RaiseSum(n: nat, a: nat, b: nat)
    ensures Raise(n, a + b) == Raise(n, a) * Raise(n, b)
  {
    if a == 0 {
    } else {
      RaiseSum(n, a - 1, b);
      var x, y := Raise(n, a - 1), Raise(n, b);
      assert Raise(n, a + b) == n * Raise(n, a - 1 + b);
      assert n * (x * y) == n * x * y;
    }
  }

  /** The potential of a tree of `n` nodes is at most `n lg n`. */
  lemma {:induction false} WeightBound(t: Tree, n: nat)
    requires Size(t) <= n
    ensures Weight(t) <= Raise(n, Size(t))
  {
    if t.Nil? {
    } else {
      WeightBound(t.left, n);
      WeightBound(t.right, n);
      RaiseSum(n, Size(t.left), Size(t.right));
      ThreeBound(Size(t), n, Weight(t.left), Raise(n, Size(t.left)), Weight(t.right), Raise(n, Size(t.right)));
      assert Raise(n, Size(t)) == n * Raise(n, Size(t) - 1);
    }
  }

  lemma {:induction false} ThreeBound(s: nat, n: nat, u: nat, a: nat, v: nat, b: nat)
    requires s <= n && u <= a && v <= b
    ensures s * u * v <= n * (a * b)
  {
    Times(u, a, v, b);
    Times(s, n, u * v, a * b);
    assert s * u * v == s * (u * v);
  }
}
