/** `STAILQ`: singly linked queues whose head holds the address of the last link. */
module SimpleQueue {
  import opened Sequences

  /** The address of a link. */
  datatype Slot = HeadSlot(head: Head) | NextSlot(node: Node)

  /** An element with its `STAILQ_ENTRY` field. */
  class Node {
    var next: Node?

    constructor ()
      ensures next == null
    {
      next := null;
    }
  }

  /** The element at index `i`; null past the end. */
  ghost function At(s: seq<Node>, i: nat): Node? {
    if i < |s| then s[i] else null
  }

  /** The `STAILQ_HEAD` struct; `items` are the elements it holds, in order. */
  class Head {
    var first: Node?
    var last: Slot
    ghost var items: seq<Node>

    /** The address of the link that leads to the element at index `i`. */
    ghost function SlotAt(s: seq<Node>, i: nat): Slot
      requires i <= |s|
    {
      if i == 0 then HeadSlot(this) else NextSlot(s[i - 1])
    }

    /** The elements are linked in this order, and `last` is the address of the final null link. */
    ghost predicate Linked(s: seq<Node>)
      reads this, s
    {
      && Distinct(s) && first == At(s, 0) && last == SlotAt(s, |s|)
      && forall i {:trigger s[i].next} :: 0 <= i < |s| ==> s[i].next == At(s, i + 1)
    }

    ghost predicate Valid()
      reads this, items
    {
      Linked(items)
    }

    /** `STAILQ_INIT`. */
    constructor ()
      ensures Valid() && items == []
    {
      first := null;
      last := HeadSlot(this);
      items := [];
    }

    /** The links around a new element are set. */
    lemma {:induction false} Stitched(s: seq<Node>, i: nat, elm: Node)
      requires i <= |s| && Distinct(s) && elm !in s && (i > 0 ==> first == At(s, 0))
      requires forall k {:trigger s[k].next} :: 0 <= k < |s| && k != i - 1 ==> s[k].next == At(s, k + 1)
      requires elm.next == At(s, i) && last == if i == |s| then NextSlot(elm) else SlotAt(s, |s|)
      requires if i == 0 then first == elm else s[i - 1].next == elm
      ensures Linked(Inserted(s, i, elm))
    {
      InsertedDistinct(s, i, elm);
      var r := Inserted(s, i, elm);
      forall k | 0 <= k < |r|
        ensures r[k].next == At(r, k + 1)
      {
        if k < i {
          assert r[k] == s[k];
        } else if k > i {
          assert r[k] == s[k - 1];
        }
      }
    }

    /** `STAILQ_INSERT_HEAD`. */
    method InsertHead(elm: Node)
      requires Valid() && elm !in items
      modifies this, items, elm
      ensures Valid() && items == Inserted(old(items), 0, elm)
    {
      elm.next := first;
      if elm.next == null {
        last := NextSlot(elm);
      }
      first := elm;
      Stitched(items, 0, elm);
      items := Inserted(items, 0, elm);
    }

    /** `STAILQ_INSERT_TAIL`. */
    method InsertTail(elm: Node)
      requires Valid() && elm !in items
      modifies this, items, elm
      ensures Valid() && items == Inserted(old(items), |old(items)|, elm)
    {
      elm.next := null;
      Assign(last, elm);
      last := NextSlot(elm);
      Stitched(items, |items|, elm);
      items := Inserted(items, |items|, elm);
    }

    /** `STAILQ_INSERT_AFTER`. */
    method InsertAfter(tqelm: Node, elm: Node, ghost i: nat)
      requires Valid() && At(items, i) == tqelm && elm !in items
      modifies this, items, elm
      ensures Valid() && items == Inserted(old(items), i + 1, elm)
    {
      elm.next := tqelm.next;
      if elm.next == null {
        last := NextSlot(elm);
      }
      tqelm.next := elm;
      Stitched(items, i + 1, elm);
      items := Inserted(items, i + 1, elm);
    }

    /** The link to the element at index `i` leads past it. */
    lemma {:induction false} Unstitched(s: seq<Node>, i: nat)
      requires i < |s| && Distinct(s)
      requires forall k {:trigger s[k].next} :: 0 <= k < |s| && k != i - 1 && k != i ==> s[k].next == At(s, k + 1)
      requires if i == 0 then first == At(s, 1) else first == s[0] && s[i - 1].next == At(s, i + 1)
      requires last == if i + 1 == |s| then SlotAt(s, i) else SlotAt(s, |s|)
      ensures Linked(Deleted(s, i))
    {
      DeletedDistinct(s, i);
      var r := Deleted(s, i);
      forall k | 0 <= k < |r|
        ensures r[k].next == At(r, k + 1)
      {
        assert r[k] == if k < i then s[k] else s[k + 1];
      }
    }

    /** `STAILQ_REMOVE_HEAD`. */
    method RemoveHead()
      requires Valid() && items != []
      modifies this
      ensures Valid() && items == Deleted(old(items), 0)
    {
      first := first.next;
      if first == null {
        last := HeadSlot(this);
      }
      Unstitched(items, 0);
      items := Deleted(items, 0);
    }

    /** `STAILQ_REMOVE_AFTER`: the element after `elm` goes. */
    method RemoveAfter(elm: Node, ghost i: nat)
      requires Valid() && At(items, i) == elm && i + 1 < |items|
      modifies this, elm
      ensures Valid() && items == Deleted(old(items), i + 1)
    {
      elm.next := elm.next.next;
      if elm.next == null {
        last := NextSlot(elm);
      }
      Unstitched(items, i + 1);
      items := Deleted(items, i + 1);
    }

    /** `STAILQ_REMOVE`: searches for the element before `elm` unless `elm` is the first. */
    method Remove(elm: Node, ghost i: nat)
      requires Valid() && At(items, i) == elm
      modifies this, items
      ensures Valid() && items == Deleted(old(items), i)
      ensures elm.next == old(elm.next)
    {
      if first == elm {
        RemoveHead();
      } else {
        var curelm := Previous(elm, i);
        RemoveAfter(curelm, i - 1);
      }
    }

    /** The search loop of the removal. */
    method Previous(elm: Node, ghost i: nat) returns (curelm: Node)
      requires Valid() && At(items, i) == elm && i > 0
      ensures curelm == items[i - 1]
    {
      curelm := first;
      ghost var k := 0;
      while curelm.next != elm
        invariant k < i && curelm == items[k]
        decreases i - k
      {
        curelm := curelm.next;
        k := k + 1;
      }
    }

    /** `STAILQ_REMOVE_HEAD_UNTIL`: everything up to and including `elm` goes. */
    method RemoveHeadUntil(elm: Node, ghost i: nat)
      requires Valid() && At(items, i) == elm
      modifies this
      ensures Valid() && items == old(items)[i + 1..]
    {
      first := elm.next;
      if first == null {
        last := HeadSlot(this);
      }
      ghost var was := items;
      items := was[i + 1..];
      forall k | 0 <= k < |items|
        ensures items[k].next == At(items, k + 1)
      {
        assert items[k] == was[k + i + 1];
      }
    }

    // ---------- two queues ----------

    /** The first element of `b` follows the last of `a`. */
    lemma {:induction false} Joined(a: seq<Node>, b: seq<Node>)
      requires Distinct(a) && Distinct(b) && b != [] && forall n <- b :: n !in a
      requires forall k {:trigger a[k].next} :: 0 <= k < |a| ==> a[k].next == if k + 1 < |a| then a[k + 1] else b[0]
      requires forall k {:trigger b[k].next} :: 0 <= k < |b| ==> b[k].next == At(b, k + 1)
      requires first == At(a + b, 0) && last == SlotAt(b, |b|)
      ensures Linked(a + b)
    {
      var r := a + b;
      forall k | 0 <= k < |r|
        ensures r[k].next == At(r, k + 1)
      {
        if k < |a| {
          assert r[k] == a[k];
        } else {
          assert r[k] == b[k - |a|];
        }
      }
      JoinedDistinct(a, b);
    }

    /** `STAILQ_CONCAT`: the elements of `head2` go to the end of this queue. */
    method Concat(head2: Head)
      requires Valid() && head2.Valid() && this != head2 && forall n <- head2.items :: n !in items
      modifies this, items, head2
      ensures Valid() && items == old(items) + old(head2.items)
      ensures head2.Valid() && head2.items == []
    {
      ghost var a, b := items, head2.items;
      if head2.first != null {
        assert a != [] ==> a[|a| - 1] !in b;
        Assign(last, head2.first);
        last := head2.last;
        head2.first := null;
        head2.last := HeadSlot(head2);
        Joined(a, b);
        items, head2.items := a + b, [];
      }
    }

    /** `STAILQ_SWAP`: a head left empty gets the address of its own first link back. */
    method Swap(head2: Head)
      requires Valid() && head2.Valid() && this != head2
      modifies this, head2
      ensures Valid() && items == old(head2.items)
      ensures head2.Valid() && head2.items == old(items)
    {
      ghost var a, b := items, head2.items;
      var swapFirst, swapLast := first, last;
      first := head2.first;
      last := head2.last;
      head2.first := swapFirst;
      head2.last := swapLast;
      if first == null {
        last := HeadSlot(this);
      }
      if head2.first == null {
        head2.last := HeadSlot(head2);
      }
      items, head2.items := b, a;
    }

    /** `STAILQ_LAST`: the element whose next link is the last one. */
    method Last() returns (r: Node?)
      requires Valid()
      ensures r == if items == [] then null else items[|items| - 1]
    {
      r := if first == null then null else last.node;
    }
  }

  /** The object that a write through a link changes. */
  ghost function Owner(slot: Slot): object {
    match slot
    case HeadSlot(h) => h
    case NextSlot(n) => n
  }

  /** `*slot = v`. */
  method Assign(slot: Slot, v: Node?)
    modifies Owner(slot)
    ensures match slot
      case HeadSlot(h) => h.first == v && h.last == old(h.last) && h.items == old(h.items)
      case NextSlot(n) => n.next == v
  {
    match slot
    case HeadSlot(h) => h.first := v;
    case NextSlot(n) => n.next := v;
  }
}
