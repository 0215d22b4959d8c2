/** The elements that the trees link together, and the sequences of elements that specify the trees. */
module Entries {
  import opened Order
  import Sequences

  datatype Color = Black | Red

  /** A structure that carries an `RB_ENTRY` and a `SPLAY_ENTRY`; `key` stands for all that the comparison looks at. */
  class Elem {
    const key: Key
    var left: Elem?
    var right: Elem?
    var parent: Elem?
    var color: Color
    var speLeft: Elem?
    var speRight: Elem?

    constructor (k: Key)
      ensures key == k
    {
      key := k;
    }
  }

  ghost function Keys(s: seq<Elem>): (ks: seq<Key>)
    ensures |ks| == |s| && forall i :: 0 <= i < |s| ==> ks[i] == s[i].key
  {
    seq(|s|, i requires 0 <= i < |s| => s[i].key)
  }

  lemma {:induction false} KeysConcat(s: seq<Elem>, t: seq<Elem>)
    ensures Keys(s + t) == Keys(s) + Keys(t)
  {
  }

  ghost function First(s: seq<Elem>): Elem? {
    if s == [] then null else s[0]
  }

  ghost function Last(s: seq<Elem>): Elem? {
    if s == [] then null else s[|s| - 1]
  }

  /** The node at index `i`; null beyond the ends. */
  ghost function Get(s: seq<Elem>, i: int): Elem? {
    if 0 <= i < |s| then s[i] else null
  }

  lemma {:induction false} GetSome(s: seq<Elem>, i: int)
    ensures Get(s, i) != null <==> 0 <= i < |s|
  {
  }

  lemma {:induction false} FirstAt(s: seq<Elem>)
    ensures First(s) == Get(s, 0)
  {
  }

  lemma {:induction false} ReversedAt(s: seq<Elem>, i: int)
    ensures |Sequences.Reversed(s)| == |s|
    ensures Get(Sequences.Reversed(s), |s| - 1 - i) == Get(s, i)
  {
  }

  lemma {:induction false} Neighbours(a: seq<Elem>, n: Elem, b: seq<Elem>)
    ensures Get(a + [n] + b, |a|) == n
    ensures Get(a + [n] + b, |a| + 1) == First(b)
    ensures Get(a + [n] + b, |a| - 1) == Last(a)
  {
  }

  // ---------- visiting a sequence ----------

  /** One more node of `all` is visited. */
  method Visit(seen: seq<Elem>, x: Elem, ghost all: seq<Elem>) returns (visited: seq<Elem>)
    requires |seen| <= |all| && seen == all[..|seen|] && x == Get(all, |seen|)
    ensures |seen| < |all| && |visited| == |seen| + 1 && visited == all[..|visited|]
  {
    visited := seen + [x];
  }

  lemma {:induction false} AllVisited(visited: seq<Elem>, all: seq<Elem>)
    requires |visited| <= |all| && visited == all[..|visited|] && Get(all, |visited|) == null
    ensures visited == all
  {
  }

  // ---------- sorted sequences ----------

  lemma {:induction false} NoneEqual(cmp: Compare, s: seq<Elem>, k: Key)
    requires AllBelow(cmp, Keys(s), k) || AllAbove(cmp, Keys(s), k)
    ensures forall n :: n in s ==> cmp(k, n.key) != 0
  {
    forall n | n in s
      ensures cmp(k, n.key) != 0
    {
      var i :| 0 <= i < |s| && s[i] == n;
      assert Keys(s)[i] == n.key;
    }
  }

  /** One comparison with a node settles everything on one side of it. */
  lemma {:induction false} ComparedAt(cmp: Compare, a: seq<Elem>, n: Elem, b: seq<Elem>, k: Key)
    requires TotalOrder(cmp) && Sorted(cmp, Keys(a + [n] + b))
    ensures cmp(k, n.key) <= 0 ==> AllAbove(cmp, Keys(b), k)
    ensures cmp(k, n.key) >= 0 ==> AllBelow(cmp, Keys(a), k)
    ensures cmp(k, n.key) < 0 ==> AllAbove(cmp, Keys([n] + b), k)
    ensures cmp(k, n.key) > 0 ==> AllBelow(cmp, Keys(a + [n]), k)
  {
    KeysConcat(a + [n], b);
    KeysConcat(a, [n]);
    assert Keys([n]) == [n.key];
    SortedSplit(cmp, Keys(a), n.key, Keys(b), k);
  }

  /** No node occurs twice. */
  lemma {:induction false} Distinct(cmp: Compare, s: seq<Elem>, i: nat, j: nat)
    requires TotalOrder(cmp) && Sorted(cmp, Keys(s)) && i < |s| && j < |s| && s[i] == s[j]
    ensures i == j
  {
    var ks := Keys(s);
    assert cmp(ks[i], ks[j]) == 0 && cmp(ks[j], ks[i]) == 0;
  }

  // ---------- one element more, one element less ----------

  /** The node sequence `s` with `n` put in at index `at`. */
  ghost predicate PutIn(s: seq<Elem>, at: nat, n: Elem, s': seq<Elem>) {
    at <= |s| && s' == s[..at] + [n] + s[at..]
  }

  lemma {:induction false} PutInBetween(a: seq<Elem>, n: Elem, b: seq<Elem>)
    ensures PutIn(a + b, |a|, n, a + [n] + b)
    ensures Keys(a + [n] + b) == Keys(a) + [n.key] + Keys(b)
  {
  }

  /** `s` without the node at index `at`, which is `n`. */
  ghost predicate TakeOut(s: seq<Elem>, at: nat, n: Elem, s': seq<Elem>) {
    at < |s| && s[at] == n && s' == s[..at] + s[at + 1..]
  }

  lemma {:induction false} TakeOutBetween(a: seq<Elem>, n: Elem, b: seq<Elem>)
    ensures TakeOut(a + [n] + b, |a|, n, a + b)
  {
  }

  /** The map keeps exactly the nodes of `s`. */
  ghost predicate Tracks<T>(m: map<Elem, T>, s: seq<Elem>) {
    && (forall n <- m.Keys :: n in s)
    && (forall n <- s :: n in m)
  }

  lemma {:induction false} WithoutSorted(cmp: Compare, a: seq<Key>, k: Key, b: seq<Key>)
    requires TotalOrder(cmp) && Sorted(cmp, a + [k] + b)
    ensures Sorted(cmp, a + b) && AllBelow(cmp, a, k) && AllAbove(cmp, b, k)
  {
    SortedSplit(cmp, a, k, b, k);
    assert cmp(k, k) == 0;
    var s := a + [k] + b;
    forall i, j | 0 <= i < j < |a + b|
      ensures cmp((a + b)[i], (a + b)[j]) < 0
    {
      var i', j' := if i < |a| then i else i + 1, if j < |a| then j else j + 1;
      assert s[i'] == (a + b)[i] && s[j'] == (a + b)[j];
      assert cmp(s[i'], s[j']) < 0;
    }
  }

  lemma {:induction false} Without<T>(cmp: Compare, m: map<Elem, T>, a: seq<Elem>, n: Elem, b: seq<Elem>)
    requires TotalOrder(cmp) && Sorted(cmp, Keys(a + [n] + b)) && Tracks(m, a + [n] + b)
    ensures Sorted(cmp, Keys(a + b)) && n !in a + b && Tracks(m - {n}, a + b)
  {
    KeysConcat(a + [n], b);
    KeysConcat(a, [n]);
    KeysConcat(a, b);
    assert Keys([n]) == [n.key];
    WithoutSorted(cmp, Keys(a), n.key, Keys(b));
    NoneEqual(cmp, a, n.key);
    NoneEqual(cmp, b, n.key);
    assert cmp(n.key, n.key) == 0;
    assert n !in a && n !in b;
    assert forall k :: k in a + [n] + b <==> k in a + b || k == n;
  }

  lemma {:induction false} TakeOutSorted<T>(cmp: Compare, m: map<Elem, T>, s: seq<Elem>, at: nat, n: Elem,
      s': seq<Elem>)
    requires TotalOrder(cmp) && Sorted(cmp, Keys(s)) && Tracks(m, s) && TakeOut(s, at, n, s')
    ensures Sorted(cmp, Keys(s')) && n !in s' && Tracks(m - {n}, s')
  {
    assert s == s[..at] + [n] + s[at + 1..];
    Without(cmp, m, s[..at], n, s[at + 1..]);
  }
}
