/** The red-black conditions as the header words them, by search paths, and that they are the ones kept. */
module RbPaths {
  import opened Entries
  import opened RbShape
  import opened RbBalance

  /** The child that a search takes for one turn of its path. */
  ghost function Child(t: Tree, left: bool): Tree
    requires t.Bin?
  {
    if left then t.left else t.right
  }

  /** A search that takes these turns, true for left, ends at a leaf. */
  ghost predicate ToLeaf(t: Tree, path: seq<bool>) {
    if t.Nil? then path == [] else path != [] && ToLeaf(Child(t, path[0]), path[1..])
  }

  /** The black nodes on a search path. */
  ghost function Blacks(t: Tree, path: seq<bool>): nat
    requires ToLeaf(t, path)
  {
    if t.Nil? then 0 else Blacks(Child(t, path[0]), path[1..]) + if t.color == Black then 1 else 0
  }

  ghost predicate EveryPath(t: Tree, b: nat) {
    forall path :: ToLeaf(t, path) ==> Blacks(t, path) == b
  }

  /** Each red node except for the root has a black parent. */
  ghost predicate BlackParents(t: Tree) {
    t.Nil? || (BlackParents(t.left) && BlackParents(t.right) && (t.color == Red ==> !IsRed(t.left) && !IsRed(t.right)))
  }

  lemma {:induction false} SomePath(t: Tree) returns (path: seq<bool>)
    ensures ToLeaf(t, path)
  {
    if t.Nil? {
      path := [];
    } else {
      var rest := SomePath(t.left);
      path := [true] + rest;
      assert path[1..] == rest;
    }
  }

  lemma {:induction false} PathsDown(t: Tree, b: nat, left: bool)
    requires t.Bin? && EveryPath(t, b)
    ensures t.color == Black ==> b > 0
    ensures EveryPath(Child(t, left), if t.color == Black then b - 1 else b)
  {
    var c := Child(t, left);
    forall path | ToLeaf(c, path)
      ensures b == Blacks(c, path) + if t.color == Black then 1 else 0
    {
      assert ([left] + path)[1..] == path;
      assert ToLeaf(t, [left] + path);
    }
    var some := SomePath(c);
  }

  lemma {:induction false} PathBlacks(t: Tree, b: nat, path: seq<bool>)
    requires RB(t, b) && ToLeaf(t, path)
    ensures Blacks(t, path) == b
  {
    if t.Nil? {
    } else {
      PathBlacks(Child(t, path[0]), if t.color == Black then b - 1 else b, path[1..]);
    }
  }

  lemma {:induction false} RBMeans(t: Tree, b: nat)
    ensures RB(t, b) <==> BlackParents(t) && EveryPath(t, b)
  {
    if RB(t, b) {
      forall path | ToLeaf(t, path)
        ensures Blacks(t, path) == b
      {
        PathBlacks(t, b, path);
      }
    }
    if t.Nil? {
      assert ToLeaf(t, []);
    } else if EveryPath(t, b) {
      PathsDown(t, b, true);
      PathsDown(t, b, false);
      var d := if t.color == Black then b - 1 else b;
      RBMeans(t.left, d);
      RBMeans(t.right, d);
    }
    if RB(t, b) {
      RBParents(t, b);
    }
  }

  lemma {:induction false} RBParents(t: Tree, b: nat)
    requires RB(t, b)
    ensures BlackParents(t)
  {
    if t.Nil? {
    } else {
      var d := if t.color == Black then b - 1 else b;
      RBParents(t.left, d);
      RBParents(t.right, d);
    }
  }

  /** What every operation keeps is what the header asks for: the root is black, every search path has
      the same number of black nodes, and no red node below the root has a red parent. */
  lemma {:induction false} RedBlackMeans(t: Tree)
    ensures RedBlack(t) <==> !IsRed(t) && BlackParents(t) && exists b: nat :: EveryPath(t, b)
  {
    RBMeans(t, BlackHeight(t));
    if BlackParents(t) && exists b: nat :: EveryPath(t, b) {
      var b: nat :| EveryPath(t, b);
      RBMeans(t, b);
      HeightUnique(t, b);
    }
  }
}
