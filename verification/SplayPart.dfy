/**
 What a splay comes to: a recursive account of the top-down splay, and the amortized bound for it.

 The weight of a tree is the product of the sizes of all its subtrees, so that its binary logarithm is
 the usual potential.
 */
module SplayPart {
  import opened Order
  import opened Entries
  import opened Power
  import opened SplayStore

  /** The left side tree, the root and the right side tree that a splay ends with, and its number of
      links and final rotations. */
  datatype Parts = Parts(left: Tree, node: Elem, right: Tree, steps: nat)

  ghost function Whole(p: Parts): Tree {
    Bin(p.left, p.node, p.right)
  }

  /** A splay to `k`, by recursion on the tree that is left. */
  ghost function Part(cmp: Compare, t: Tree, k: Key): Parts
    requires t.Bin?
    decreases t
  {
    var comp := cmp(k, t.node.key);
    if comp < 0 && t.left.Bin? then
      var y := t.left;
      if cmp(k, y.node.key) < 0 then
        var x := Bin(y.right, t.node, t.right);
        if y.left.Nil? then Parts(Nil, y.node, x, 1) else HangRight(Part(cmp, y.left, k), y.node, x)
      else HangRight(Part(cmp, y, k), t.node, t.right)
    else if comp > 0 && t.right.Bin? then
      var y := t.right;
      if cmp(k, y.node.key) > 0 then
        var x := Bin(t.left, t.node, y.left);
        if y.right.Nil? then Parts(x, y.node, Nil, 1) else HangLeft(Part(cmp, y.right, k), y.node, x)
      else HangLeft(Part(cmp, y, k), t.node, t.left)
    else Parts(t.left, t.node, t.right, 0)
  }

  /** The node `n` with its right subtree is the top of the right side tree. */
  ghost function HangRight(p: Parts, n: Elem, sub: Tree): Parts {
    Parts(p.left, p.node, Bin(p.right, n, sub), p.steps + 1)
  }

  /** The node `n` with its left subtree is the top of the left side tree. */
  ghost function HangLeft(p: Parts, n: Elem, sub: Tree): Parts {
    Parts(Bin(sub, n, p.left), p.node, p.right, p.steps + 1)
  }

  // ---------- sizes and weights ----------

  ghost function Size(t: Tree): nat {
    if t.Nil? then 0 else Size(t.left) + 1 + Size(t.right)
  }

  ghost function Weight(t: Tree): (w: nat)
    ensures w >= 1
  {
    if t.Nil? then 1
    else
      Positive(Size(t), Weight(t.left), Weight(t.right));
      Size(t) * Weight(t.left) * Weight(t.right)
  }

  lemma {:induction false} Positive(a: nat, b: nat, c: nat)
    requires a >= 1 && b >= 1 && c >= 1
    ensures a * b * c >= 1
  {
    MulMonotone(1, a, b);
    MulMonotone(1, a * b, c);
  }

  lemma {:induction false} WeightOf(l: Tree, n: Elem, r: Tree)
    ensures var t := Bin(l, n, r);
      Weight(t) == Size(t) * (Weight(l) * Weight(r)) && Weight(t) == Size(t) * (Weight(r) * Weight(l))
  {
    var t := Bin(l, n, r);
    assert Weight(t) == Size(t) * Weight(l) * Weight(r);
    Triple(Size(t), Weight(l), Weight(r));
  }

  lemma {:induction false} PartSize(cmp: Compare, t: Tree, k: Key)
    requires t.Bin?
    ensures var p := Part(cmp, t, k); Size(p.left) + 1 + Size(p.right) == Size(t)
    decreases t
  {
    var comp := cmp(k, t.node.key);
    if comp < 0 && t.left.Bin? {
      PartSize(cmp, t.left, k);
      if t.left.left.Bin? {
        PartSize(cmp, t.left.left, k);
      }
    } else if comp > 0 && t.right.Bin? {
      PartSize(cmp, t.right, k);
      if t.right.right.Bin? {
        PartSize(cmp, t.right.right, k);
      }
    }
  }

  // ---------- arithmetic ----------

  /** The product of two numbers with a bounded sum. */
  lemma {:induction false} FourTimes(a: nat, b: nat, n: nat)
    requires a + b <= n
    ensures 4 * (a * b) <= n * n
  {
    Square(a - b);
    assert (a + b) * (a + b) - (a - b) * (a - b) == 4 * (a * b);
    Times(a + b, n, a + b, n);
  }

  lemma {:induction false} Square(d: int)
    ensures d * d >= 0
  {
  }

  /** Scaling both sides of an inequality. */
  lemma {:induction false} Chain(c: nat, x: nat, q: nat, w: nat, d: nat, z: nat)
    requires x <= q * w && c * q <= d
    ensures c * x * z <= d * w * z
  {
    MulMonotone(x, q * w, c);
    assert c * (q * w) == (c * q) * w;
    MulMonotone(c * q, d, w);
    MulMonotone(c * x, d * w, z);
  }

  // ---------- the bound, case by case, in numbers ----------

  /** No step: the root stays. */
  lemma {:induction false} StayCost(n: nat, wl: nat, wr: nat)
    requires n >= 1
    ensures 1 * wl * wr <= n * n * (n * wl * wr)
  {
    Times(1, n, 1, n);
    Times(1, n * n, 1, n);
    MulMonotone(1, n * n * n, wl * wr);
    assert n * n * (n * wl * wr) == n * n * n * (wl * wr);
  }

  lemma {:induction false} RotationFactor(n: nat, m: nat, low: nat, r: nat, sy: nat)
    requires low + m <= n && r <= n && m <= sy
    ensures 2 * r * low * (m * m) <= n * n * n * sy
  {
    FourTimes(low, m, n);
    Times(2 * (low * m), n * n, r, n);
    Times(2 * (low * m) * r, n * n * n, m, sy);
    RotationOrder(r, low, m);
  }

  lemma {:induction false} RotationOrder(r: nat, low: nat, m: nat)
    ensures 2 * r * low * (m * m) == 2 * (low * m) * r * m
  {
  }

  /** A rotation, and the loop goes on in a tree of size `m` and weight `w`, where it costs at most `x`. */
  lemma {:induction false} RotationCost(n: nat, m: nat, low: nat, r: nat, sy: nat, x: nat, w: nat, z: nat)
    requires x <= m * m * w && low + m <= n && r <= n && m <= sy
    ensures 2 * r * low * x * z <= n * n * n * sy * w * z
  {
    RotationFactor(n, m, low, r, sy);
    Chain(2 * r * low, x, m * m, w, n * n * n * sy, z);
  }

  lemma {:induction false} TwoLinksFactor(n: nat, m: nat, l: nat, r: nat, sy: nat)
    requires l + r <= n && m <= sy && m <= n
    ensures 4 * l * r * (m * m) <= n * n * n * sy
  {
    FourTimes(l, r, n);
    Times(m, n, m, sy);
    Times(4 * (l * r), n * n, m * m, n * sy);
    assert n * n * (n * sy) == n * n * n * sy;
  }

  /** Two links in opposite directions. */
  lemma {:induction false} TwoLinksCost(n: nat, m: nat, l: nat, r: nat, sy: nat, x: nat, w: nat, z: nat)
    requires x <= m * m * w && l + r <= n && m <= sy && m <= n
    ensures 4 * l * r * x * z <= n * n * n * sy * w * z
  {
    TwoLinksFactor(n, m, l, r, sy);
    Chain(4 * l * r, x, m * m, w, n * n * n * sy, z);
  }

  lemma {:induction false} LinkRotationFactor(n: nat, m: nat, l: nat, r: nat, low: nat, sy: nat, sd: nat)
    requires l + r <= n && low <= n && m <= sy && m <= sd
    ensures 4 * l * r * low * (m * m) <= n * n * n * sy * sd
  {
    FourTimes(l, r, n);
    Times(m, sy, m, sd);
    Times(4 * (l * r), n * n, low, n);
    Times(4 * (l * r) * low, n * n * n, m * m, sy * sd);
    assert n * n * n * (sy * sd) == n * n * n * sy * sd;
  }

  /** A link and then a rotation in the opposite direction. */
  lemma {:induction false} LinkRotationCost(n: nat, m: nat, l: nat, r: nat, low: nat, sy: nat, sd: nat, x: nat,
      w: nat, z: nat)
    requires x <= m * m * w && l + r <= n && low <= n && m <= sy && m <= sd
    ensures 4 * l * r * low * x * z <= n * n * n * sy * sd * w * z
  {
    LinkRotationFactor(n, m, l, r, low, sy, sd);
    Chain(4 * l * r * low, x, m * m, w, n * n * n * sy * sd, z);
  }

  /** One last step. */
  lemma {:induction false} EndCost(n: nat, r: nat, sy: nat, z: nat)
    requires n >= 2 && r <= n && sy >= 1
    ensures 2 * r * z <= n * n * n * sy * z
  {
    Times(2, n, r, n);
    Times(1, n, 1, sy);
    Times(2 * r, n * n, 1, n * sy);
    assert n * n * (n * sy) == n * n * n * sy;
    MulMonotone(2 * r, n * n * n * sy, z);
  }

  /** A link and a last rotation in the opposite direction. */
  lemma {:induction false} TurnEndCost(n: nat, l: nat, r: nat, sy: nat, sd: nat, z: nat)
    requires n >= 1 && l + r <= n && sy >= 1 && sd >= 1
    ensures 4 * l * r * z <= n * n * n * sy * sd * z
  {
    FourTimes(l, r, n);
    Times(1, n, 1, sy);
    Times(1, n * sy, 1, sd);
    Times(4 * (l * r), n * n, 1, n * sy * sd);
    assert 4 * l * r == 4 * (l * r);
    assert n * n * (n * sy * sd) == n * n * n * sy * sd;
    MulMonotone(4 * l * r, n * n * n * sy * sd, z);
  }

  // ---------- products put in order ----------

  lemma {:induction false} Triple(p: nat, u: nat, v: nat)
    ensures p * u * v == p * (u * v) == p * (v * u)
  {
  }

  lemma {:induction false} RotationProduct(p: nat, u: nat, v: nat, r: nat, low: nat, a: nat, b: nat)
    ensures (2 * p) * u * (r * v * (low * a * b)) == 2 * r * low * (p * u * v) * (a * b)
    ensures (2 * p) * (r * (low * b * a) * v) * u == 2 * r * low * (p * v * u) * (a * b)
  {
  }

  lemma {:induction false} NearProduct(n: nat, sy: nat, w: nat, a: nat, b: nat)
    ensures n * n * (n * (sy * w * a) * b) == n * n * n * sy * w * (a * b)
    ensures n * n * (n * b * (sy * a * w)) == n * n * n * sy * w * (a * b)
  {
  }

  lemma {:induction false} LastProduct(n: nat, r: nat, sy: nat, a: nat, d: nat, c: nat)
    ensures 2 * a * (r * d * c) == 2 * r * (a * d * c) && 2 * (r * c * d) * a == 2 * r * (a * d * c)
    ensures n * n * (n * (sy * a * d) * c) == n * n * n * sy * (a * d * c)
    ensures n * n * (n * c * (sy * d * a)) == n * n * n * sy * (a * d * c)
  {
  }

  lemma {:induction false} LinkLastProduct(n: nat, l: nat, r: nat, sy: nat, sd: nat, a: nat, e: nat, c: nat)
    ensures 4 * (l * a * e) * (r * 1 * c) == 4 * l * r * (a * e * c)
    ensures 4 * (r * c * 1) * (l * e * a) == 4 * l * r * (a * e * c)
    ensures n * n * (n * (sy * a * (sd * e * 1)) * c) == n * n * n * sy * sd * (a * e * c)
    ensures n * n * (n * c * (sy * (sd * 1 * e) * a)) == n * n * n * sy * sd * (a * e * c)
  {
  }

  lemma {:induction false} TwoLinksProduct(p: nat, u: nat, v: nat, l: nat, r: nat, a: nat, c: nat)
    ensures (4 * p) * (l * a * u) * (r * v * c) == 4 * l * r * (p * u * v) * (a * c)
    ensures (4 * p) * (r * c * v) * (l * u * a) == 4 * l * r * (p * v * u) * (a * c)
  {
  }

  lemma {:induction false} FarProduct(n: nat, sy: nat, a: nat, w: nat, c: nat)
    ensures n * n * (n * (sy * a * w) * c) == n * n * n * sy * w * (a * c)
    ensures n * n * (n * c * (sy * w * a)) == n * n * n * sy * w * (a * c)
  {
  }

  lemma {:induction false} Inward(x: nat, y: nat, low: nat, a: nat, e: nat, c: nat)
    ensures x * y * ((low * a * e) * c) == x * low * y * (a * e * c)
    ensures x * y * ((low * e * a) * c) == x * low * y * (a * e * c)
  {
  }

  lemma {:induction false} LinkRotationProduct(p: nat, u: nat, v: nat, l: nat, low: nat, r: nat, a: nat, e: nat, c: nat)
    ensures (4 * p) * (l * (low * a * e) * u) * (r * v * c) == 4 * l * r * low * (p * u * v) * (a * e * c)
    ensures (4 * p) * (r * c * v) * (l * u * (low * e * a)) == 4 * l * r * low * (p * v * u) * (a * e * c)
  {
    TwoLinksProduct(p, u, v, l, r, low * a * e, c);
    Inward(4 * l * r, p * u * v, low, a, e, c);
    TwoLinksProduct(p, u, v, l, r, low * e * a, c);
    Inward(4 * l * r, p * v * u, low, a, e, c);
  }

  lemma {:induction false} FarthestProduct(n: nat, sy: nat, sd: nat, a: nat, e: nat, w: nat, c: nat)
    ensures n * n * (n * (sy * a * (sd * e * w)) * c) == n * n * n * sy * sd * w * (a * e * c)
    ensures n * n * (n * c * (sy * (sd * w * e) * a)) == n * n * n * sy * sd * w * (a * e * c)
  {
  }

  /** The last case in numbers, with the weights of all the trees in it. */
  lemma {:induction false} LinkRotationTotal(n: nat, m: nat, sl: nat, sr: nat, low: nat, sy: nat, sd: nat, p: nat,
      u: nat, v: nat, w: nat, a: nat, e: nat, c: nat, wlow: nat, wl: nat, wr: nat,
      wd: nat, wy: nat, wt: nat)
    requires p * (u * v) <= m * m * w && sl + sr <= n && low <= n && m <= sy && m <= sd
    requires wlow == low * (a * e) && wl == sl * (wlow * u) && wr == sr * (v * c)
    requires wd == sd * (e * w) && wy == sy * (a * wd) && wt == n * (wy * c)
    ensures 4 * p * (wl * wr) <= n * n * wt
  {
    LinkRotationCost(n, m, sl, sr, low, sy, sd, p * (u * v), w, a * e * c);
    TotalLeft(p, u, v, sl, low, sr, a, e, c);
    TotalRight(n, sy, sd, a, e, w, c);
  }

  lemma {:induction false} TotalLeft(p: nat, u: nat, v: nat, l: nat, low: nat, r: nat, a: nat, e: nat, c: nat)
    ensures 4 * p * (l * (low * (a * e) * u) * (r * (v * c))) == 4 * l * r * low * (p * (u * v)) * (a * e * c)
  {
    LinkRotationProduct(p, u, v, l, low, r, a, e, c);
    var x, y := l * (low * a * e) * u, r * v * c;
    assert x == l * (low * (a * e) * u) && y == r * (v * c);
    assert (4 * p) * x * y == 4 * p * (x * y);
    assert p * u * v == p * (u * v);
  }

  lemma {:induction false} TotalRight(n: nat, sy: nat, sd: nat, a: nat, e: nat, w: nat, c: nat)
    ensures n * n * (n * (sy * (a * (sd * (e * w))) * c)) == n * n * n * sy * sd * w * (a * e * c)
  {
    FarthestProduct(n, sy, sd, a, e, w, c);
    assert sy * (a * (sd * (e * w))) == sy * a * (sd * e * w);
    var q := sy * a * (sd * e * w);
    assert n * (q * c) == n * q * c;
  }

  // ---------- the bound for a splay ----------

  /** `steps` steps turn the tree `t` into two side trees of weights `wl` and `wr`. */
  ghost predicate Cheap(steps: nat, wl: nat, wr: nat, t: Tree) {
    Pow2(steps) * wl * wr <= Size(t) * Size(t) * Weight(t)
  }

  // ---------- searches that go left first ----------

  /** Both steps go left: the rotation. */
  lemma {:induction false} RotationLeft(t: Tree, p: Parts)
    requires t.Bin? && t.left.Bin? && Size(p.left) + 1 + Size(p.right) == Size(t.left.left)
    requires Cheap(p.steps, Weight(p.left), Weight(p.right), t.left.left)
    ensures var y := t.left;
      var q := HangRight(p, y.node, Bin(y.right, t.node, t.right));
      Cheap(q.steps, Weight(q.left), Weight(q.right), t)
  {
    var y := t.left;
    var x := Bin(y.right, t.node, t.right);
    var r := Bin(p.right, y.node, x);
    var u, v, w, a, b := Weight(p.left), Weight(p.right), Weight(y.left), Weight(y.right), Weight(t.right);
    RotationCost(Size(t), Size(y.left), Size(x), Size(r), Size(y), Pow2(p.steps) * u * v, w, a * b);
    RotationProduct(Pow2(p.steps), u, v, Size(r), Size(x), a, b);
    NearProduct(Size(t), Size(y), w, a, b);
  }

  /** A last rotation. */
  lemma {:induction false} LastRotationLeft(t: Tree)
    requires t.Bin? && t.left.Bin? && t.left.left.Nil?
    ensures var q := Parts(Nil, t.left.node, Bin(t.left.right, t.node, t.right), 1);
      Cheap(q.steps, Weight(q.left), Weight(q.right), t)
  {
    var y := t.left;
    var x := Bin(y.right, t.node, t.right);
    var d, c := Weight(y.right), Weight(t.right);
    assert Pow2(1) == 2;
    assert Weight(x) == Size(x) * d * c && Weight(y) == Size(y) * 1 * d;
    EndCost(Size(t), Size(x), Size(y), 1 * d * c);
    LastProduct(Size(t), Size(x), Size(y), 1, d, c);
  }

  /** A last link. */
  lemma {:induction false} LastLinkLeft(t: Tree)
    requires t.Bin? && t.left.Bin?
    ensures var y := t.left;
      var q := HangRight(Parts(y.left, y.node, y.right, 0), t.node, t.right);
      Cheap(q.steps, Weight(q.left), Weight(q.right), t)
  {
    var y := t.left;
    var x := Bin(y.right, t.node, t.right);
    assert Pow2(1) == 2;
    var a, d, c := Weight(y.left), Weight(y.right), Weight(t.right);
    EndCost(Size(t), Size(x), Size(y), a * d * c);
    LastProduct(Size(t), Size(x), Size(y), a, d, c);
  }

  /** A link, and a last rotation the other way. */
  lemma {:induction false} LinkLastRotationLeft(t: Tree)
    requires t.Bin? && t.left.Bin? && t.left.right.Bin? && t.left.right.right.Nil?
    ensures var y := t.left; var d := y.right;
      var q := HangRight(Parts(Bin(y.left, y.node, d.left), d.node, Nil, 1), t.node, t.right);
      Cheap(q.steps, Weight(q.left), Weight(q.right), t)
  {
    var y := t.left;
    var d := y.right;
    var l, r := Bin(y.left, y.node, d.left), Bin(Nil, t.node, t.right);
    var a, e, c := Weight(y.left), Weight(d.left), Weight(t.right);
    assert Pow2(2) == 4;
    assert Weight(l) == Size(l) * a * e && Weight(r) == Size(r) * 1 * c;
    assert Weight(d) == Size(d) * e * 1 && Weight(y) == Size(y) * a * Weight(d);
    TurnEndCost(Size(t), Size(l), Size(r), Size(y), Size(d), a * e * c);
    LinkLastProduct(Size(t), Size(l), Size(r), Size(y), Size(d), a, e, c);
  }

  /** Two links in opposite directions. */
  lemma {:induction false} TwoLinksLeft(t: Tree, p: Parts)
    requires t.Bin? && t.left.Bin? && t.left.right.Bin? && Size(p.left) + 1 + Size(p.right) == Size(t.left.right)
    requires Cheap(p.steps, Weight(p.left), Weight(p.right), t.left.right)
    ensures var y := t.left;
      var q := HangRight(HangLeft(p, y.node, y.left), t.node, t.right);
      Cheap(q.steps, Weight(q.left), Weight(q.right), t)
  {
    var y := t.left;
    var d := y.right;
    var l, r := Bin(y.left, y.node, p.left), Bin(p.right, t.node, t.right);
    var u, v, a, c := Weight(p.left), Weight(p.right), Weight(y.left), Weight(t.right);
    assert Pow2(p.steps + 2) == 4 * Pow2(p.steps);
    TwoLinksCost(Size(t), Size(d), Size(l), Size(r), Size(y), Pow2(p.steps) * u * v, Weight(d), a * c);
    TwoLinksProduct(Pow2(p.steps), u, v, Size(l), Size(r), a, c);
    FarProduct(Size(t), Size(y), a, Weight(d), c);
  }

  /** A link, and a rotation the other way. */
  lemma {:induction false} LinkRotationLeft(t: Tree, p: Parts)
    requires t.Bin? && t.left.Bin? && t.left.right.Bin? && Size(p.left) + 1 + Size(p.right) == Size(t.left.right.right)
    requires Cheap(p.steps, Weight(p.left), Weight(p.right), t.left.right.right)
    ensures var y := t.left; var d := y.right;
      var q := HangRight(HangLeft(p, d.node, Bin(y.left, y.node, d.left)), t.node, t.right);
      Cheap(q.steps, Weight(q.left), Weight(q.right), t)
  {
    var y := t.left;
    var d := y.right;
    var low := Bin(y.left, y.node, d.left);
    var l, r := Bin(low, d.node, p.left), Bin(p.right, t.node, t.right);
    var u, v, w := Weight(p.left), Weight(p.right), Weight(d.right);
    var a, e, c := Weight(y.left), Weight(d.left), Weight(t.right);
    WeightOf(y.left, y.node, d.left);
    WeightOf(low, d.node, p.left);
    WeightOf(p.right, t.node, t.right);
    WeightOf(d.left, d.node, d.right);
    WeightOf(y.left, y.node, d);
    WeightOf(y, t.node, t.right);
    Triple(Pow2(p.steps), Weight(p.left), Weight(p.right));
    assert Pow2(p.steps + 2) == 4 * Pow2(p.steps);
    LinkRotationTotal(Size(t), Size(d.right), Size(l), Size(r), Size(low), Size(y), Size(d), Pow2(p.steps), u, v,
        w, a, e, c, Weight(low), Weight(l), Weight(r), Weight(d), Weight(y), Weight(t));
    Triple(4 * Pow2(p.steps), Weight(l), Weight(r));
  }

  // ---------- searches that go right first ----------

  /** Both steps go right: the rotation. */
  lemma {:induction false} RotationRight(t: Tree, p: Parts)
    requires t.Bin? && t.right.Bin? && Size(p.left) + 1 + Size(p.right) == Size(t.right.right)
    requires Cheap(p.steps, Weight(p.left), Weight(p.right), t.right.right)
    ensures var y := t.right;
      var q := HangLeft(p, y.node, Bin(t.left, t.node, y.left));
      Cheap(q.steps, Weight(q.left), Weight(q.right), t)
  {
    var y := t.right;
    var x := Bin(t.left, t.node, y.left);
    var r := Bin(x, y.node, p.left);
    var u, v, w, a, b := Weight(p.right), Weight(p.left), Weight(y.right), Weight(y.left), Weight(t.left);
    RotationCost(Size(t), Size(y.right), Size(x), Size(r), Size(y), Pow2(p.steps) * v * u, w, a * b);
    RotationProduct(Pow2(p.steps), u, v, Size(r), Size(x), a, b);
    NearProduct(Size(t), Size(y), w, a, b);
  }

  /** A last rotation. */
  lemma {:induction false} LastRotationRight(t: Tree)
    requires t.Bin? && t.right.Bin? && t.right.right.Nil?
    ensures var q := Parts(Bin(t.left, t.node, t.right.left), t.right.node, Nil, 1);
      Cheap(q.steps, Weight(q.left), Weight(q.right), t)
  {
    var y := t.right;
    var x := Bin(t.left, t.node, y.left);
    var d, c := Weight(y.left), Weight(t.left);
    assert Pow2(1) == 2;
    assert Weight(x) == Size(x) * c * d && Weight(y) == Size(y) * d * 1;
    EndCost(Size(t), Size(x), Size(y), 1 * d * c);
    LastProduct(Size(t), Size(x), Size(y), 1, d, c);
  }

  /** A last link. */
  lemma {:induction false} LastLinkRight(t: Tree)
    requires t.Bin? && t.right.Bin?
    ensures var y := t.right;
      var q := HangLeft(Parts(y.left, y.node, y.right, 0), t.node, t.left);
      Cheap(q.steps, Weight(q.left), Weight(q.right), t)
  {
    var y := t.right;
    var x := Bin(t.left, t.node, y.left);
    assert Pow2(1) == 2;
    var a, d, c := Weight(y.right), Weight(y.left), Weight(t.left);
    EndCost(Size(t), Size(x), Size(y), a * d * c);
    LastProduct(Size(t), Size(x), Size(y), a, d, c);
  }

  /** A link, and a last rotation the other way. */
  lemma {:induction false} LinkLastRotationRight(t: Tree)
    requires t.Bin? && t.right.Bin? && t.right.left.Bin? && t.right.left.left.Nil?
    ensures var y := t.right; var d := y.left;
      var q := HangLeft(Parts(Nil, d.node, Bin(d.right, y.node, y.right), 1), t.node, t.left);
      Cheap(q.steps, Weight(q.left), Weight(q.right), t)
  {
    var y := t.right;
    var d := y.left;
    var l, r := Bin(d.right, y.node, y.right), Bin(t.left, t.node, Nil);
    var a, e, c := Weight(y.right), Weight(d.right), Weight(t.left);
    assert Pow2(2) == 4;
    assert Weight(l) == Size(l) * e * a && Weight(r) == Size(r) * c * 1;
    assert Weight(d) == Size(d) * 1 * e && Weight(y) == Size(y) * Weight(d) * a;
    TurnEndCost(Size(t), Size(l), Size(r), Size(y), Size(d), a * e * c);
    LinkLastProduct(Size(t), Size(l), Size(r), Size(y), Size(d), a, e, c);
  }

  /** Two links in opposite directions. */
  lemma {:induction false} TwoLinksRight(t: Tree, p: Parts)
    requires t.Bin? && t.right.Bin? && t.right.left.Bin? && Size(p.left) + 1 + Size(p.right) == Size(t.right.left)
    requires Cheap(p.steps, Weight(p.left), Weight(p.right), t.right.left)
    ensures var y := t.right;
      var q := HangLeft(HangRight(p, y.node, y.right), t.node, t.left);
      Cheap(q.steps, Weight(q.left), Weight(q.right), t)
  {
    var y := t.right;
    var d := y.left;
    var l, r := Bin(p.right, y.node, y.right), Bin(t.left, t.node, p.left);
    var u, v, a, c := Weight(p.right), Weight(p.left), Weight(y.right), Weight(t.left);
    assert Pow2(p.steps + 2) == 4 * Pow2(p.steps);
    TwoLinksCost(Size(t), Size(d), Size(l), Size(r), Size(y), Pow2(p.steps) * v * u, Weight(d), a * c);
    TwoLinksProduct(Pow2(p.steps), u, v, Size(l), Size(r), a, c);
    FarProduct(Size(t), Size(y), a, Weight(d), c);
  }

  /** A link, and a rotation the other way. */
  lemma {:induction false} LinkRotationRight(t: Tree, p: Parts)
    requires t.Bin? && t.right.Bin? && t.right.left.Bin? && Size(p.left) + 1 + Size(p.right) == Size(t.right.left.left)
    requires Cheap(p.steps, Weight(p.left), Weight(p.right), t.right.left.left)
    ensures var y := t.right; var d := y.left;
      var q := HangLeft(HangRight(p, d.node, Bin(d.right, y.node, y.right)), t.node, t.left);
      Cheap(q.steps, Weight(q.left), Weight(q.right), t)
  {
    var y := t.right;
    var d := y.left;
    var low := Bin(d.right, y.node, y.right);
    var l, r := Bin(p.right, d.node, low), Bin(t.left, t.node, p.left);
    var u, v, w := Weight(p.right), Weight(p.left), Weight(d.left);
    var a, e, c := Weight(y.right), Weight(d.right), Weight(t.left);
    WeightOf(d.right, y.node, y.right);
    WeightOf(p.right, d.node, low);
    WeightOf(t.left, t.node, p.left);
    WeightOf(d.left, d.node, d.right);
    WeightOf(d, y.node, y.right);
    WeightOf(t.left, t.node, y);
    Triple(Pow2(p.steps), Weight(p.left), Weight(p.right));
    assert Pow2(p.steps + 2) == 4 * Pow2(p.steps);
    LinkRotationTotal(Size(t), Size(d.left), Size(l), Size(r), Size(low), Size(y), Size(d), Pow2(p.steps), u, v, w,
        a, e, c, Weight(low), Weight(l), Weight(r), Weight(d), Weight(y), Weight(t));
    Triple(4 * Pow2(p.steps), Weight(r), Weight(l));
  }

  /** A splay costs at most three times the logarithm of the size, up to what it takes off the potential:
      2 to the number of steps, times the weight afterwards, is at most the cube of the size times the
      weight before. */
  lemma {:induction false} PartCost(cmp: Compare, t: Tree, k: Key)
    requires t.Bin?
    ensures var p := Part(cmp, t, k); Cheap(p.steps, Weight(p.left), Weight(p.right), t)
    decreases t, 1
  {
    var comp := cmp(k, t.node.key);
    if comp < 0 && t.left.Bin? {
      LeftCost(cmp, t, k);
    } else if comp > 0 && t.right.Bin? {
      RightCost(cmp, t, k);
    } else {
      StayCost(Size(t), Weight(t.left), Weight(t.right));
    }
  }

  lemma {:induction false} LeftCost(cmp: Compare, t: Tree, k: Key)
    requires t.Bin? && t.left.Bin? && cmp(k, t.node.key) < 0
    ensures var p := Part(cmp, t, k); Cheap(p.steps, Weight(p.left), Weight(p.right), t)
    decreases t, 0
  {
    var y := t.left;
    var comp := cmp(k, y.node.key);
    if comp < 0 {
      if y.left.Nil? {
        LastRotationLeft(t);
      } else {
        PartSize(cmp, y.left, k);
        PartCost(cmp, y.left, k);
        RotationLeft(t, Part(cmp, y.left, k));
      }
    } else if comp == 0 || y.right.Nil? {
      LastLinkLeft(t);
    } else {
      var d := y.right;
      if cmp(k, d.node.key) > 0 {
        if d.right.Nil? {
          LinkLastRotationLeft(t);
        } else {
          PartSize(cmp, d.right, k);
          PartCost(cmp, d.right, k);
          LinkRotationLeft(t, Part(cmp, d.right, k));
        }
      } else {
        PartSize(cmp, d, k);
        PartCost(cmp, d, k);
        TwoLinksLeft(t, Part(cmp, d, k));
      }
    }
  }

  lemma {:induction false} RightCost(cmp: Compare, t: Tree, k: Key)
    requires t.Bin? && t.right.Bin? && cmp(k, t.node.key) > 0
    ensures var p := Part(cmp, t, k); Cheap(p.steps, Weight(p.left), Weight(p.right), t)
    decreases t, 0
  {
    var y := t.right;
    var comp := cmp(k, y.node.key);
    if comp > 0 {
      if y.right.Nil? {
        LastRotationRight(t);
      } else {
        PartSize(cmp, y.right, k);
        PartCost(cmp, y.right, k);
        RotationRight(t, Part(cmp, y.right, k));
      }
    } else if comp == 0 || y.left.Nil? {
      LastLinkRight(t);
    } else {
      var d := y.left;
      if cmp(k, d.node.key) < 0 {
        if d.left.Nil? {
          LinkLastRotationRight(t);
        } else {
          PartSize(cmp, d.left, k);
          PartCost(cmp, d.left, k);
          LinkRotationRight(t, Part(cmp, d.left, k));
        }
      } else {
        PartSize(cmp, d, k);
        PartCost(cmp, d, k);
        TwoLinksRight(t, Part(cmp, d, k));
      }
    }
  }
}
