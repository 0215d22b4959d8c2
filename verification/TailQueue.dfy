/**
 `TAILQ`: tail queues linked both ways. The back link of an element is the address of the link that
 leads to it, which is the head's first link or the previous element's next link.
 */
module TailQueue {
  import opened Sequences

  /** The address of a link. */
  datatype Slot = HeadSlot(head: Head) | NextSlot(node: Node)

  /** An element with its `TAILQ_ENTRY` fields. */
  class Node {
    var next: Node?
    var prev: Slot

    constructor (s: Slot)
      ensures next == null && prev == s
    {
      next, prev := null, s;
    }
  }

  /** The element at index `i`; null past the end. */
  ghost function At(s: seq<Node>, i: nat): Node? {
    if i < |s| then s[i] else null
  }

  /** The `TAILQ_HEAD` struct; `items` are the elements it holds, in order. */
  class Head {
    var first: Node?
    var last: Slot
    ghost var items: seq<Node>

    /** The address of the link that leads to the element at index `i`. */
    ghost function SlotAt(s: seq<Node>, i: nat): Slot
      requires i <= |s|
    {
      if i == 0 then HeadSlot(this) else NextSlot(s[i - 1])
    }

    /** The elements are linked in this order, each back link is the address of the link that leads to
        its element, and `last` is the address of the final null link. */
    ghost predicate Linked(s: seq<Node>)
      reads this, s
    {
      && Distinct(s)
      && first == At(s, 0) && last == SlotAt(s, |s|)
      && (forall i {:trigger s[i].next} :: 0 <= i < |s| ==> s[i].next == At(s, i + 1))
      && (forall i {:trigger s[i].prev} :: 0 <= i < |s| ==> s[i].prev == SlotAt(s, i))
    }

    ghost predicate Valid()
      reads this, items
    {
      Linked(items)
    }

    /** All links of `s` are right, except those that lead from index `i - 1` to `i` and back. */
    ghost predicate LinkedBut(s: seq<Node>, i: nat)
      requires i <= |s|
      reads this, s
    {
      && Distinct(s)
      && (i > 0 ==> first == At(s, 0)) && (i < |s| ==> last == SlotAt(s, |s|))
      && (forall k {:trigger s[k].next} :: 0 <= k < |s| && k != i - 1 ==> s[k].next == At(s, k + 1))
      && (forall k {:trigger s[k].prev} :: 0 <= k < |s| && k != i ==> s[k].prev == SlotAt(s, k))
    }

    /** The links around a new element are set. */
    lemma {:induction false} Stitched(s: seq<Node>, i: nat, elm: Node)
      requires i <= |s| && LinkedBut(s, i) && elm !in s
      requires elm.next == At(s, i) && elm.prev == SlotAt(s, i)
      requires if i == 0 then first == elm else s[i - 1].next == elm
      requires if i == |s| then last == NextSlot(elm) else s[i].prev == NextSlot(elm)
      ensures Linked(Inserted(s, i, elm))
    {
      InsertedDistinct(s, i, elm);
      var r := Inserted(s, i, elm);
      forall k | 0 <= k < |r|
        ensures r[k].next == At(r, k + 1) && r[k].prev == SlotAt(r, k)
      {
        if k < i {
          assert r[k] == s[k];
        } else if k > i {
          assert r[k] == s[k - 1];
        }
      }
    }

    /** `TAILQ_INIT`. */
    constructor ()
      ensures Valid() && items == []
    {
      first := null;
      last := HeadSlot(this);
      items := [];
    }

    /** `TAILQ_INSERT_HEAD`. */
    method InsertHead(elm: Node)
      requires Valid() && elm !in items
      modifies this, items, elm
      ensures Valid() && items == Inserted(old(items), 0, elm)
    {
      elm.next := first;
      if elm.next != null {
        first.prev := NextSlot(elm);
      } else {
        last := NextSlot(elm);
      }
      first := elm;
      elm.prev := HeadSlot(this);
      Stitched(items, 0, elm);
      items := Inserted(items, 0, elm);
    }

    /** `TAILQ_INSERT_TAIL`. */
    method InsertTail(elm: Node)
      requires Valid() && elm !in items
      modifies this, items, elm
      ensures Valid() && items == Inserted(old(items), |old(items)|, elm)
    {
      elm.next := null;
      elm.prev := last;
      Assign(last, elm);
      last := NextSlot(elm);
      Stitched(items, |items|, elm);
      items := Inserted(items, |items|, elm);
    }

    /** `TAILQ_INSERT_AFTER`. */
    method InsertAfter(listelm: Node, elm: Node, ghost i: nat)
      requires Valid() && At(items, i) == listelm && elm !in items
      modifies this, items, elm
      ensures Valid() && items == Inserted(old(items), i + 1, elm)
    {
      elm.next := listelm.next;
      if elm.next != null {
        elm.next.prev := NextSlot(elm);
      } else {
        last := NextSlot(elm);
      }
      listelm.next := elm;
      elm.prev := NextSlot(listelm);
      Stitched(items, i + 1, elm);
      items := Inserted(items, i + 1, elm);
    }

    /** `TAILQ_INSERT_BEFORE`, which does without the head. */
    method InsertBefore(listelm: Node, elm: Node, ghost i: nat)
      requires Valid() && At(items, i) == listelm && elm !in items
      modifies this, items, elm
      ensures Valid() && items == Inserted(old(items), i, elm)
    {
      elm.prev := listelm.prev;
      elm.next := listelm;
      Assign(listelm.prev, elm);
      listelm.prev := NextSlot(elm);
      Stitched(items, i, elm);
      items := Inserted(items, i, elm);
    }

    /** The links around the element at index `i` lead past it. */
    lemma {:induction false} Unstitched(s: seq<Node>, i: nat)
      requires i < |s| && Distinct(s)
      requires forall k {:trigger s[k].next} :: 0 <= k < |s| && k != i - 1 && k != i ==> s[k].next == At(s, k + 1)
      requires forall k {:trigger s[k].prev} :: 0 <= k < |s| && k != i && k != i + 1 ==> s[k].prev == SlotAt(s, k)
      requires if i == 0 then first == At(s, 1) else first == s[0] && s[i - 1].next == At(s, i + 1)
      requires if i + 1 == |s| then last == SlotAt(s, i) else last == SlotAt(s, |s|) && s[i + 1].prev == SlotAt(s, i)
      ensures Linked(Deleted(s, i))
    {
      DeletedDistinct(s, i);
      var r := Deleted(s, i);
      forall k | 0 <= k < |r|
        ensures r[k].next == At(r, k + 1) && r[k].prev == SlotAt(r, k)
      {
        assert r[k] == if k < i then s[k] else s[k + 1];
      }
    }

    /** `TAILQ_REMOVE`. */
    method Remove(elm: Node, ghost i: nat)
      requires Valid() && At(items, i) == elm
      modifies this, items
      ensures Valid() && items == Deleted(old(items), i)
      ensures elm.next == old(elm.next) && elm.prev == old(elm.prev)
    {
      if elm.next != null {
        elm.next.prev := elm.prev;
      } else {
        last := elm.prev;
      }
      Assign(elm.prev, elm.next);
      Unstitched(items, i);
      items := Deleted(items, i);
    }

    // ---------- two queues ----------

    /** The first element of `b` follows the last of `a`. */
    lemma {:induction false} Joined(a: seq<Node>, b: seq<Node>)
      requires Distinct(a) && Distinct(b) && b != [] && forall n <- b :: n !in a
      requires forall k {:trigger a[k].next} :: 0 <= k < |a| ==> a[k].next == if k + 1 < |a| then a[k + 1] else b[0]
      requires forall k {:trigger a[k].prev} :: 0 <= k < |a| ==> a[k].prev == SlotAt(a, k)
      requires forall k {:trigger b[k].next} :: 0 <= k < |b| ==> b[k].next == At(b, k + 1)
      requires forall k {:trigger b[k].prev} :: 0 <= k < |b| ==>
        b[k].prev == if k > 0 then SlotAt(b, k) else SlotAt(a, |a|)
      requires first == At(a + b, 0) && last == SlotAt(b, |b|)
      ensures Linked(a + b)
    {
      var r := a + b;
      forall k | 0 <= k < |r|
        ensures r[k].next == At(r, k + 1) && r[k].prev == SlotAt(r, k)
      {
        if k < |a| {
          assert r[k] == a[k];
        } else {
          assert r[k] == b[k - |a|];
        }
      }
      JoinedDistinct(a, b);
    }

    /** `TAILQ_CONCAT`: the elements of `head2` go to the end of this queue. */
    method Concat(head2: Head)
      requires Valid() && head2.Valid() && this != head2 && forall n <- head2.items :: n !in items
      modifies this, items, head2, head2.items
      ensures Valid() && items == old(items) + old(head2.items)
      ensures head2.Valid() && head2.items == []
    {
      if head2.first != null {
        ghost var a, b := items, head2.items;
        assert b[0] !in a && (a != [] ==> a[|a| - 1] !in b);
        Assign(last, head2.first);
        head2.first.prev := last;
        last := head2.last;
        head2.first := null;
        head2.last := HeadSlot(head2);
        Joined(a, b);
        items := a + b;
        head2.items := [];
      }
    }

    /** `TAILQ_SWAP`. */
    method Swap(head2: Head)
      requires Valid() && head2.Valid() && this != head2 && forall n <- head2.items :: n !in items
      modifies this, items, head2, head2.items
      ensures Valid() && items == old(head2.items)
      ensures head2.Valid() && head2.items == old(items)
    {
      ghost var a, b := items, head2.items;
      assert (b != [] ==> b[0] !in a) && (a != [] ==> a[0] !in b);
      var swapFirst, swapLast := first, last;
      first := head2.first;
      last := head2.last;
      head2.first := swapFirst;
      head2.last := swapLast;
      swapFirst := first;
      if swapFirst != null {
        swapFirst.prev := HeadSlot(this);
      } else {
        last := HeadSlot(this);
      }
      swapFirst := head2.first;
      if swapFirst != null {
        swapFirst.prev := HeadSlot(head2);
      } else {
        head2.last := HeadSlot(head2);
      }
      items, head2.items := b, a;
    }
  }

  /** The objects that a write through a link can change. */
  ghost function Owner(slot: Slot): object {
    match slot
    case HeadSlot(h) => h
    case NextSlot(n) => n
  }

  /** `*slot`. */
  function Deref(slot: Slot): Node?
    reads Owner(slot)
  {
    match slot
    case HeadSlot(h) => h.first
    case NextSlot(n) => n.next
  }

  /** `*slot = v`. */
  method Assign(slot: Slot, v: Node?)
    modifies Owner(slot)
    ensures match slot
      case HeadSlot(h) => h.first == v && h.last == old(h.last) && h.items == old(h.items)
      case NextSlot(n) => n.next == v && n.prev == old(n.prev)
  {
    match slot
    case HeadSlot(h) => h.first := v;
    case NextSlot(n) => n.next := v;
  }

  // ---------- reading backwards ----------

  /** The second field of the pair that starts at `slot`: a head and an element's entry are laid out
      alike, a link followed by the address of a link. */
  function Second(slot: Slot): Slot
    reads Owner(slot)
  {
    match slot
    case HeadSlot(h) => h.last
    case NextSlot(n) => n.prev
  }

  /** `TAILQ_LAST`. */
  method Last(h: Head) returns (r: Node?)
    requires h.Valid()
    ensures r == if h.items == [] then null else h.items[|h.items| - 1]
  {
    r := Deref(Second(h.last));
  }

  /** `TAILQ_PREV`, which does not need the head. */
  method Prev(elm: Node, ghost h: Head, ghost i: nat) returns (r: Node?)
    requires h.Valid() && At(h.items, i) == elm
    ensures r == if i == 0 then null else h.items[i - 1]
  {
    r := Deref(Second(elm.prev));
  }

  /** `TAILQ_FOREACH`. */
  method Foreach(h: Head) returns (visited: seq<Node>)
    requires h.Valid()
    ensures visited == h.items
  {
    visited := [];
    var x := h.first;
    while x != null
      invariant |visited| <= |h.items| && visited == h.items[..|visited|] && x == At(h.items, |visited|)
      decreases |h.items| - |visited|
    {
      visited := visited + [x];
      x := x.next;
    }
  }

  /** `TAILQ_FOREACH_REVERSE` visits exactly the reverse of what `TAILQ_FOREACH` visits. */
  method ForeachReverse(h: Head) returns (visited: seq<Node>)
    requires h.Valid()
    ensures visited == Reversed(h.items)
  {
    visited := [];
    ghost var s, n := h.items, |h.items|;
    var x := Last(h);
    while x != null
      invariant |visited| <= n && visited == Reversed(s)[..|visited|]
      invariant x == if |visited| < n then s[n - 1 - |visited|] else null
      decreases n - |visited|
    {
      visited := visited + [x];
      x := Prev(x, h, n - |visited|);
    }
  }

  /** The links determine the elements and their order. */
  lemma {:induction false} SameItems(h: Head, s: seq<Node>, s': seq<Node>)
    requires h.Linked(s) && h.Linked(s')
    ensures s == s'
  {
    SamePrefix(h, s, s', |s|);
    SamePrefix(h, s', s, |s'|);
  }

  lemma {:induction false} SamePrefix(h: Head, s: seq<Node>, s': seq<Node>, n: nat)
    requires h.Linked(s) && h.Linked(s') && n <= |s|
    ensures n <= |s'| && s[..n] == s'[..n]
    decreases n
  {
    if n == 0 {
    } else {
      SamePrefix(h, s, s', n - 1);
      if n > 1 {
        assert s[n - 2] == s'[n - 2];
        assert s[n - 2].next == At(s', n - 1);
      }
      assert At(s, n - 1) == At(s', n - 1);
    }
  }
}
