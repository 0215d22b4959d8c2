/** `LIST`: lists whose elements hold the address of the link that leads to them. */
module LinkedList {
  import opened Sequences

  /** The address of a link. */
  datatype Slot = HeadSlot(head: Head) | NextSlot(node: Node)

  /** An element with its `LIST_ENTRY` fields. */
  class Node {
    var next: Node?
    var prev: Slot

    constructor (s: Slot)
      ensures next == null && prev == s
    {
      next, prev := null, s;
    }
  }

  /** The element at index `i`; null past the end. */
  ghost function At(s: seq<Node>, i: nat): Node? {
    if i < |s| then s[i] else null
  }

  /** The `LIST_HEAD` struct; `items` are the elements it holds, in order. */
  class Head {
    var first: Node?
    ghost var items: seq<Node>

    /** The address of the link that leads to the element at index `i`. */
    ghost function SlotAt(s: seq<Node>, i: nat): Slot
      requires i <= |s|
    {
      if i == 0 then HeadSlot(this) else NextSlot(s[i - 1])
    }

    /** The elements are linked in this order, and each back link is the address of the link that leads
        to its element. */
    ghost predicate Linked(s: seq<Node>)
      reads this, s
    {
      && Distinct(s) && first == At(s, 0)
      && (forall i {:trigger s[i].next} :: 0 <= i < |s| ==> s[i].next == At(s, i + 1))
      && (forall i {:trigger s[i].prev} :: 0 <= i < |s| ==> s[i].prev == SlotAt(s, i))
    }

    ghost predicate Valid()
      reads this, items
    {
      Linked(items)
    }

    /** `LIST_INIT`. */
    constructor ()
      ensures Valid() && items == []
    {
      first := null;
      items := [];
    }

    /** The links around a new element are set. */
    lemma {:induction false} Stitched(s: seq<Node>, i: nat, elm: Node)
      requires i <= |s| && Distinct(s) && elm !in s && (i > 0 ==> first == At(s, 0))
      requires forall k {:trigger s[k].next} :: 0 <= k < |s| && k != i - 1 ==> s[k].next == At(s, k + 1)
      requires forall k {:trigger s[k].prev} :: 0 <= k < |s| && k != i ==> s[k].prev == SlotAt(s, k)
      requires elm.next == At(s, i) && elm.prev == SlotAt(s, i)
      requires if i == 0 then first == elm else s[i - 1].next == elm
      requires i < |s| ==> s[i].prev == NextSlot(elm)
      ensures Linked(Inserted(s, i, elm))
    {
      InsertedDistinct(s, i, elm);
      var r := Inserted(s, i, elm);
      forall k | 0 <= k < |r|
        ensures r[k].next == At(r, k + 1) && r[k].prev == SlotAt(r, k)
      {
        if k < i {
          assert r[k] == s[k];
        } else if k > i {
          assert r[k] == s[k - 1];
        }
      }
    }

    /** `LIST_INSERT_HEAD`. */
    method InsertHead(elm: Node)
      requires Valid() && elm !in items
      modifies this, items, elm
      ensures Valid() && items == Inserted(old(items), 0, elm)
    {
      elm.next := first;
      if elm.next != null {
        first.prev := NextSlot(elm);
      }
      first := elm;
      elm.prev := HeadSlot(this);
      Stitched(items, 0, elm);
      items := Inserted(items, 0, elm);
    }

    /** `LIST_INSERT_AFTER`, which does without the head. */
    method InsertAfter(listelm: Node, elm: Node, ghost i: nat)
      requires Valid() && At(items, i) == listelm && elm !in items
      modifies this, items, elm
      ensures Valid() && items == Inserted(old(items), i + 1, elm)
    {
      elm.next := listelm.next;
      if elm.next != null {
        listelm.next.prev := NextSlot(elm);
      }
      listelm.next := elm;
      elm.prev := NextSlot(listelm);
      Stitched(items, i + 1, elm);
      items := Inserted(items, i + 1, elm);
    }

    /** `LIST_INSERT_BEFORE`, which does without the head. */
    method InsertBefore(listelm: Node, elm: Node, ghost i: nat)
      requires Valid() && At(items, i) == listelm && elm !in items
      modifies this, items, elm
      ensures Valid() && items == Inserted(old(items), i, elm)
    {
      elm.prev := listelm.prev;
      elm.next := listelm;
      Assign(listelm.prev, elm);
      listelm.prev := NextSlot(elm);
      Stitched(items, i, elm);
      items := Inserted(items, i, elm);
    }

    /** The links around the element at index `i` lead past it. */
    lemma {:induction false} Unstitched(s: seq<Node>, i: nat)
      requires i < |s| && Distinct(s)
      requires forall k {:trigger s[k].next} :: 0 <= k < |s| && k != i - 1 && k != i ==> s[k].next == At(s, k + 1)
      requires forall k {:trigger s[k].prev} :: 0 <= k < |s| && k != i && k != i + 1 ==> s[k].prev == SlotAt(s, k)
      requires if i == 0 then first == At(s, 1) else first == s[0] && s[i - 1].next == At(s, i + 1)
      requires i + 1 < |s| ==> s[i + 1].prev == SlotAt(s, i)
      ensures Linked(Deleted(s, i))
    {
      DeletedDistinct(s, i);
      var r := Deleted(s, i);
      forall k | 0 <= k < |r|
        ensures r[k].next == At(r, k + 1) && r[k].prev == SlotAt(r, k)
      {
        assert r[k] == if k < i then s[k] else s[k + 1];
      }
    }

    /** `LIST_REMOVE`, which does without the head. */
    method Remove(elm: Node, ghost i: nat)
      requires Valid() && At(items, i) == elm
      modifies this, items
      ensures Valid() && items == Deleted(old(items), i)
      ensures elm.next == old(elm.next) && elm.prev == old(elm.prev)
    {
      if elm.next != null {
        elm.next.prev := elm.prev;
      }
      Assign(elm.prev, elm.next);
      Unstitched(items, i);
      items := Deleted(items, i);
    }

    // ---------- two lists ----------

    /** The first element of `b` follows the last of `a`. */
    lemma {:induction false} Joined(a: seq<Node>, b: seq<Node>)
      requires Distinct(a) && Distinct(b) && b != [] && forall n <- b :: n !in a
      requires forall k {:trigger a[k].next} :: 0 <= k < |a| ==> a[k].next == if k + 1 < |a| then a[k + 1] else b[0]
      requires forall k {:trigger a[k].prev} :: 0 <= k < |a| ==> a[k].prev == SlotAt(a, k)
      requires forall k {:trigger b[k].next} :: 0 <= k < |b| ==> b[k].next == At(b, k + 1)
      requires forall k {:trigger b[k].prev} :: 0 <= k < |b| ==>
        b[k].prev == if k > 0 then SlotAt(b, k) else SlotAt(a, |a|)
      requires first == At(a + b, 0)
      ensures Linked(a + b)
    {
      var r := a + b;
      forall k | 0 <= k < |r|
        ensures r[k].next == At(r, k + 1) && r[k].prev == SlotAt(r, k)
      {
        if k < |a| {
          assert r[k] == a[k];
        } else {
          assert r[k] == b[k - |a|];
        }
      }
      JoinedDistinct(a, b);
    }

    /** `LIST_CONCAT`: the elements of `head2` go to the end of this list. */
    method Concat(head2: Head)
      requires Valid() && head2.Valid() && this != head2 && forall n <- head2.items :: n !in items
      modifies this, items, head2, head2.items
      ensures Valid() && items == old(items) + old(head2.items)
      ensures head2.Valid() && head2.items == []
    {
      ghost var a, b := items, head2.items;
      var curelm := first;
      if curelm == null {
        first := head2.first;
        if first != null {
          head2.first.prev := HeadSlot(this);
          head2.first := null;
          Joined(a, b);
        }
        items, head2.items := a + b, [];
      } else if head2.first != null {
        curelm := Tail(curelm);
        assert b[0] !in a && curelm !in b;
        curelm.next := head2.first;
        head2.first.prev := NextSlot(curelm);
        head2.first := null;
        Joined(a, b);
        items, head2.items := a + b, [];
      }
    }

    /** The search for the last element. */
    method Tail(start: Node) returns (curelm: Node)
      requires Valid() && items != [] && start == items[0]
      ensures curelm == items[|items| - 1]
    {
      curelm := start;
      ghost var i := 0;
      while curelm.next != null
        invariant i < |items| && curelm == items[i]
        decreases |items| - i
      {
        curelm := curelm.next;
        i := i + 1;
      }
    }

    /** `LIST_SWAP`. */
    method Swap(head2: Head)
      requires Valid() && head2.Valid() && this != head2 && forall n <- head2.items :: n !in items
      modifies this, items, head2, head2.items
      ensures Valid() && items == old(head2.items)
      ensures head2.Valid() && head2.items == old(items)
    {
      ghost var a, b := items, head2.items;
      assert (b != [] ==> b[0] !in a) && (a != [] ==> a[0] !in b);
      var swapTmp := first;
      first := head2.first;
      head2.first := swapTmp;
      swapTmp := first;
      if swapTmp != null {
        swapTmp.prev := HeadSlot(this);
      }
      swapTmp := head2.first;
      if swapTmp != null {
        swapTmp.prev := HeadSlot(head2);
      }
      items, head2.items := b, a;
    }
  }

  /** The object that a write through a link changes. */
  ghost function Owner(slot: Slot): object {
    match slot
    case HeadSlot(h) => h
    case NextSlot(n) => n
  }

  /** `*slot = v`. */
  method Assign(slot: Slot, v: Node?)
    modifies Owner(slot)
    ensures match slot
      case HeadSlot(h) => h.first == v && h.items == old(h.items)
      case NextSlot(n) => n.next == v && n.prev == old(n.prev)
  {
    match slot
    case HeadSlot(h) => h.first := v;
    case NextSlot(n) => n.next := v;
  }

  /** `LIST_PREV`: the element whose next link is the one that `elm` points back to. */
  method Prev(elm: Node, head: Head, ghost i: nat) returns (r: Node?)
    requires head.Valid() && At(head.items, i) == elm
    ensures r == if i == 0 then null else head.items[i - 1]
  {
    if elm.prev == HeadSlot(head) {
      r := null;
    } else {
      r := elm.prev.node;
    }
  }
}
