/** A finite set of elements with at most one element for each key: what a search tree stands for. */
module OrderedSet {
  import opened Order
  import opened Entries

  datatype Op =
    | Put(elm: Elem)  // insert `elm`
    | Take(elm: Elem) // remove the element with the key of `elm`
    | Seek(elm: Elem) // look for the element with the key of `elm`
    | Least           // look for the least element
    | Greatest        // look for the greatest element

  /** The element that an operation names, if any. */
  ghost function Named(op: Op): set<Elem> {
    if op.Least? || op.Greatest? then {} else {op.elm}
  }

  ghost function AsSet(s: seq<Elem>): set<Elem> {
    set n | n in s
  }

  /** The elements of `s` whose key equals `k`. */
  ghost function Equals(cmp: Compare, s: set<Elem>, k: Key): set<Elem> {
    set n | n in s && cmp(k, n.key) == 0
  }

  /** The set after one operation. */
  ghost function Step(cmp: Compare, s: set<Elem>, op: Op): set<Elem> {
    match op
    case Put(e) => if Equals(cmp, s, e.key) == {} then s + {e} else s
    case Take(e) => s - Equals(cmp, s, e.key)
    case Seek(_) => s
    case Least => s
    case Greatest => s
  }

  /** The result that one operation gives: null if there is no such element, otherwise that element.
      A removal may `echo` its argument instead. */
  ghost predicate Answer(cmp: Compare, s: set<Elem>, op: Op, r: Elem?, echo: bool) {
    match op
    case Least => if r == null then s == {} else r in s && forall n <- s :: n != r ==> cmp(r.key, n.key) < 0
    case Greatest => if r == null then s == {} else r in s && forall n <- s :: n != r ==> cmp(r.key, n.key) > 0
    case _ =>
      var same := Equals(cmp, s, op.elm.key);
      if r == null then same == {}
      else if op.Take? && echo then same != {} && r == op.elm
      else same == {r}
  }

  /** The set after a run of operations. */
  ghost function AfterRun(cmp: Compare, s: set<Elem>, ops: seq<Op>): set<Elem> {
    if ops == [] then s else Step(cmp, AfterRun(cmp, s, ops[..|ops| - 1]), ops[|ops| - 1])
  }

  /** The elements that a run of operations names. */
  ghost function Args(ops: seq<Op>): set<Elem> {
    set op, n | op in ops && n in Named(op) :: n
  }

  /** The results `rs` are those of the first operations of the run `ops` on `s0`, which lead to `s`. */
  ghost predicate Explains(cmp: Compare, s0: set<Elem>, ops: seq<Op>, rs: seq<Elem?>, s: set<Elem>, echo: bool) {
    && |rs| <= |ops| && s == AfterRun(cmp, s0, ops[..|rs|])
    && forall i :: 0 <= i < |rs| ==> Answer(cmp, AfterRun(cmp, s0, ops[..i]), ops[i], rs[i], echo)
  }

  lemma {:induction false} ExplainsOne(cmp: Compare, s0: set<Elem>, ops: seq<Op>, rs: seq<Elem?>, s: set<Elem>,
                                       r: Elem?, echo: bool)
    requires Explains(cmp, s0, ops, rs, s, echo) && |rs| < |ops| && Answer(cmp, s, ops[|rs|], r, echo)
    ensures Explains(cmp, s0, ops, rs + [r], Step(cmp, s, ops[|rs|]), echo)
  {
    var n := |rs|;
    assert ops[..n + 1][..n] == ops[..n];
  }

  // ---------- sorted sequences as sets ----------

  lemma {:induction false} NoEquals(cmp: Compare, s: seq<Elem>, k: Key)
    requires forall n :: n in s ==> cmp(k, n.key) != 0
    ensures Equals(cmp, AsSet(s), k) == {}
  {
  }

  /** In a sorted sequence an equal element is the only one. */
  lemma {:induction false} OneEqual(cmp: Compare, s: seq<Elem>, e: Elem, k: Key)
    requires TotalOrder(cmp) && Sorted(cmp, Keys(s)) && e in s && cmp(k, e.key) == 0
    ensures Equals(cmp, AsSet(s), k) == {e}
  {
    forall n | n in Equals(cmp, AsSet(s), k)
      ensures n == e
    {
      var i :| 0 <= i < |s| && s[i] == n;
      var j :| 0 <= j < |s| && s[j] == e;
      EqualKeys(cmp, n.key, k, e.key);
      var ks := Keys(s);
      assert !(cmp(ks[i], ks[j]) < 0) && !(cmp(ks[j], ks[i]) < 0);
    }
  }

  lemma {:induction false} EqualKeys(cmp: Compare, a: Key, k: Key, b: Key)
    requires TotalOrder(cmp) && cmp(k, a) == 0 && cmp(k, b) == 0
    ensures cmp(a, b) == 0 && cmp(b, a) == 0
  {
    assert cmp(a, k) == 0 && cmp(b, k) == 0;
    assert cmp(a, b) <= 0 && cmp(b, a) <= 0;
  }

  lemma {:induction false} PutInSet(s: seq<Elem>, at: nat, n: Elem, s': seq<Elem>)
    requires PutIn(s, at, n, s')
    ensures AsSet(s') == AsSet(s) + {n}
  {
    assert s == s[..at] + s[at..];
  }

  lemma {:induction false} TakeOutSet(cmp: Compare, s: seq<Elem>, at: nat, n: Elem, s': seq<Elem>)
    requires TotalOrder(cmp) && Sorted(cmp, Keys(s)) && TakeOut(s, at, n, s')
    ensures AsSet(s') == AsSet(s) - {n}
  {
    assert s == s[..at] + [n] + s[at + 1..];
    forall i | 0 <= i < |s| && i != at
      ensures s[i] != n
    {
      if s[i] == n {
        Distinct(cmp, s, i, at);
      }
    }
  }

  // ---------- what the tree operations promise, as steps of the set ----------

  ghost predicate NoneIn(cmp: Compare, s: seq<Elem>, k: Key) {
    forall n :: n in s ==> cmp(k, n.key) != 0
  }

  lemma {:induction false} PutStep(cmp: Compare, s: seq<Elem>, e: Elem, r: Elem?, at: nat, s': seq<Elem>, echo: bool)
    requires TotalOrder(cmp) && Sorted(cmp, Keys(s))
    requires if r == null then NoneIn(cmp, s, e.key) && PutIn(s, at, e, s')
      else r in s && cmp(e.key, r.key) == 0 && s' == s
    ensures AsSet(s') == Step(cmp, AsSet(s), Put(e)) && Answer(cmp, AsSet(s), Put(e), r, echo)
  {
    if r == null {
      NoEquals(cmp, s, e.key);
      PutInSet(s, at, e, s');
    } else {
      OneEqual(cmp, s, r, e.key);
    }
  }

  /** `gone` has been taken out: the answer is `gone` itself, or the argument. */
  lemma {:induction false} TakeStep(cmp: Compare, s: seq<Elem>, e: Elem, gone: Elem?, at: nat, s': seq<Elem>)
    requires TotalOrder(cmp) && Sorted(cmp, Keys(s))
    requires if gone == null then NoneIn(cmp, s, e.key) && s' == s
             else cmp(e.key, gone.key) == 0 && TakeOut(s, at, gone, s')
    ensures AsSet(s') == Step(cmp, AsSet(s), Take(e))
    ensures Answer(cmp, AsSet(s), Take(e), gone, false)
    ensures Answer(cmp, AsSet(s), Take(e), if gone == null then null else e, true)
  {
    if gone == null {
      NoEquals(cmp, s, e.key);
    } else {
      OneEqual(cmp, s, gone, e.key);
      TakeOutSet(cmp, s, at, gone, s');
    }
  }

  lemma {:induction false} SeekStep(cmp: Compare, s: seq<Elem>, e: Elem, r: Elem?, echo: bool)
    requires TotalOrder(cmp) && Sorted(cmp, Keys(s))
    requires if r == null then NoneIn(cmp, s, e.key) else r in s && cmp(e.key, r.key) == 0
    ensures Answer(cmp, AsSet(s), Seek(e), r, echo)
  {
    if r == null {
      NoEquals(cmp, s, e.key);
    } else {
      OneEqual(cmp, s, r, e.key);
    }
  }

  /** The ends of a sorted sequence. */
  lemma {:induction false} LeastStep(cmp: Compare, s: seq<Elem>, echo: bool)
    requires Sorted(cmp, Keys(s))
    ensures Answer(cmp, AsSet(s), Least, First(s), echo)
  {
    if s == [] {
      assert AsSet(s) == {};
    } else {
      forall n | n in AsSet(s) && n != s[0]
        ensures cmp(s[0].key, n.key) < 0
      {
        var i :| 0 <= i < |s| && s[i] == n;
        assert cmp(Keys(s)[0], Keys(s)[i]) < 0;
      }
    }
  }

  lemma {:induction false} GreatestStep(cmp: Compare, s: seq<Elem>, echo: bool)
    requires TotalOrder(cmp) && Sorted(cmp, Keys(s))
    ensures Answer(cmp, AsSet(s), Greatest, Last(s), echo)
  {
    if s == [] {
      assert AsSet(s) == {};
    } else {
      var k := |s| - 1;
      forall n | n in AsSet(s) && n != s[k]
        ensures cmp(s[k].key, n.key) > 0
      {
        var i :| 0 <= i < |s| && s[i] == n;
        assert cmp(Keys(s)[i], Keys(s)[k]) < 0;
      }
    }
  }
}
