/** `SLIST`: singly linked lists. */
module SimpleList {
  import opened Sequences

  /** An element with its `SLIST_ENTRY` field. */
  class Node {
    var next: Node?

    constructor ()
      ensures next == null
    {
      next := null;
    }
  }

  /** The element at index `i`; null past the end. */
  ghost function At(s: seq<Node>, i: nat): Node? {
    if i < |s| then s[i] else null
  }

  /** The `SLIST_HEAD` struct; `items` are the elements it holds, in order. */
  class Head {
    var first: Node?
    ghost var items: seq<Node>

    /** The elements are linked in this order. */
    ghost predicate Linked(s: seq<Node>)
      reads this, s
    {
      && Distinct(s) && first == At(s, 0)
      && forall i {:trigger s[i].next} :: 0 <= i < |s| ==> s[i].next == At(s, i + 1)
    }

    ghost predicate Valid()
      reads this, items
    {
      Linked(items)
    }

    /** `SLIST_INIT`. */
    constructor ()
      ensures Valid() && items == []
    {
      first := null;
      items := [];
    }

    /** The links around a new element are set. */
    lemma {:induction false} Stitched(s: seq<Node>, i: nat, elm: Node)
      requires i <= |s| && Distinct(s) && elm !in s && (i > 0 ==> first == At(s, 0))
      requires forall k {:trigger s[k].next} :: 0 <= k < |s| && k != i - 1 ==> s[k].next == At(s, k + 1)
      requires elm.next == At(s, i)
      requires if i == 0 then first == elm else s[i - 1].next == elm
      ensures Linked(Inserted(s, i, elm))
    {
      InsertedDistinct(s, i, elm);
      var r := Inserted(s, i, elm);
      forall k | 0 <= k < |r|
        ensures r[k].next == At(r, k + 1)
      {
        if k < i {
          assert r[k] == s[k];
        } else if k > i {
          assert r[k] == s[k - 1];
        }
      }
    }

    /** `SLIST_INSERT_HEAD`. */
    method InsertHead(elm: Node)
      requires Valid() && elm !in items
      modifies this, items, elm
      ensures Valid() && items == Inserted(old(items), 0, elm)
    {
      elm.next := first;
      first := elm;
      Stitched(items, 0, elm);
      items := Inserted(items, 0, elm);
    }

    /** `SLIST_INSERT_AFTER`. */
    method InsertAfter(slistelm: Node, elm: Node, ghost i: nat)
      requires Valid() && At(items, i) == slistelm && elm !in items
      modifies this, items, elm
      ensures Valid() && items == Inserted(old(items), i + 1, elm)
    {
      elm.next := slistelm.next;
      slistelm.next := elm;
      Stitched(items, i + 1, elm);
      items := Inserted(items, i + 1, elm);
    }

    /** The link to the element at index `i` leads past it. */
    lemma {:induction false} Unstitched(s: seq<Node>, i: nat)
      requires i < |s| && Distinct(s)
      requires forall k {:trigger s[k].next} :: 0 <= k < |s| && k != i - 1 && k != i ==> s[k].next == At(s, k + 1)
      requires if i == 0 then first == At(s, 1) else first == s[0] && s[i - 1].next == At(s, i + 1)
      ensures Linked(Deleted(s, i))
    {
      DeletedDistinct(s, i);
      var r := Deleted(s, i);
      forall k | 0 <= k < |r|
        ensures r[k].next == At(r, k + 1)
      {
        assert r[k] == if k < i then s[k] else s[k + 1];
      }
    }

    /** `SLIST_REMOVE_HEAD`. */
    method RemoveHead()
      requires Valid() && items != []
      modifies this
      ensures Valid() && items == Deleted(old(items), 0)
    {
      first := first.next;
      Unstitched(items, 0);
      items := Deleted(items, 0);
    }

    /** `SLIST_REMOVE_AFTER`: the element after `elm` goes. */
    method RemoveAfter(elm: Node, ghost i: nat)
      requires Valid() && At(items, i) == elm && i + 1 < |items|
      modifies this, elm
      ensures Valid() && items == Deleted(old(items), i + 1)
    {
      elm.next := elm.next.next;
      Unstitched(items, i + 1);
      items := Deleted(items, i + 1);
    }

    /** `SLIST_REMOVE`: searches for the element before `elm` unless `elm` is the first. */
    method Remove(elm: Node, ghost i: nat)
      requires Valid() && At(items, i) == elm
      modifies this, items
      ensures Valid() && items == Deleted(old(items), i)
      ensures elm.next == old(elm.next)
    {
      if first == elm {
        RemoveHead();
      } else {
        var curelm := Previous(elm, i);
        RemoveAfter(curelm, i - 1);
      }
    }

    /** The search loop of the removal. */
    method Previous(elm: Node, ghost i: nat) returns (curelm: Node)
      requires Valid() && At(items, i) == elm && i > 0
      ensures curelm == items[i - 1]
    {
      curelm := first;
      ghost var k := 0;
      while curelm.next != elm
        invariant k < i && curelm == items[k]
        decreases i - k
      {
        curelm := curelm.next;
        k := k + 1;
      }
    }

    // ---------- two lists ----------

    /** The first element of `b` follows the last of `a`. */
    lemma {:induction false} Joined(a: seq<Node>, b: seq<Node>)
      requires Distinct(a) && Distinct(b) && b != [] && forall n <- b :: n !in a
      requires forall k {:trigger a[k].next} :: 0 <= k < |a| ==> a[k].next == if k + 1 < |a| then a[k + 1] else b[0]
      requires forall k {:trigger b[k].next} :: 0 <= k < |b| ==> b[k].next == At(b, k + 1)
      requires first == At(a + b, 0)
      ensures Linked(a + b)
    {
      var r := a + b;
      forall k | 0 <= k < |r|
        ensures r[k].next == At(r, k + 1)
      {
        if k < |a| {
          assert r[k] == a[k];
        } else {
          assert r[k] == b[k - |a|];
        }
      }
      JoinedDistinct(a, b);
    }

    /** `SLIST_CONCAT`: the elements of `head2` go to the end of this list. */
    method Concat(head2: Head)
      requires Valid() && head2.Valid() && this != head2 && forall n <- head2.items :: n !in items
      modifies this, items, head2
      ensures Valid() && items == old(items) + old(head2.items)
      ensures head2.Valid() && head2.items == []
    {
      ghost var a, b := items, head2.items;
      var curelm := first;
      if curelm == null {
        first := head2.first;
        if first != null {
          head2.first := null;
          Joined(a, b);
        }
        items, head2.items := a + b, [];
      } else if head2.first != null {
        curelm := Tail(curelm);
        assert curelm !in b;
        curelm.next := head2.first;
        head2.first := null;
        Joined(a, b);
        items, head2.items := a + b, [];
      }
    }

    /** The search for the last element. */
    method Tail(start: Node) returns (curelm: Node)
      requires Valid() && items != [] && start == items[0]
      ensures curelm == items[|items| - 1]
    {
      curelm := start;
      ghost var i := 0;
      while curelm.next != null
        invariant i < |items| && curelm == items[i]
        decreases |items| - i
      {
        curelm := curelm.next;
        i := i + 1;
      }
    }
  }
}
