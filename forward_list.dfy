/** A singly linked list of heap nodes reached from `head`, with a cached
    `size`: the `ForwardList` of ds-list/src/lib.rs and its private `Node`.

    The list is proved against an abstract value, the ghost sequence
    `Contents` of the values read front to back. The ghost sequence `Spine`
    names the nodes of the chain in the same order; `Valid()` ties the two
    to the real fields `head`, `size` and each node's `value` and `next`. */
module DsList {

  /** The two failures of the source, whose messages are replaced by tags:
      popping from an empty list, and `get` past the end. */
  datatype Error = EmptyList | IndexOutOfRange

  datatype Result<T> = Ok(value: T) | Err(error: Error)

  /** True iff no adjacent pair of `s`, read front to back, is inverted:
      the condition under which the scan of `is_sorted` runs to its end. */
  predicate Sorted(s: seq<int>)
  {
    forall i :: 0 <= i < |s| - 1 ==> s[i] <= s[i + 1]
  }

  /** Checking adjacent pairs is the same as checking every ordered pair:
      `Sorted` means non-decreasing. */
  lemma {:induction false} SortedIffNonDecreasing(s: seq<int>)
    ensures Sorted(s) <==> forall i, j :: 0 <= i <= j < |s| ==> s[i] <= s[j]
  {
    if Sorted(s) {
      forall i, j | 0 <= i <= j < |s| ensures s[i] <= s[j] {
        SortedSpan(s, i, j);
      }
    }
  }

  lemma {:induction false} SortedSpan(s: seq<int>, i: nat, j: nat)
    requires Sorted(s) && i <= j < |s|
    ensures s[i] <= s[j]
    decreases j - i
  {
    if i < j {
      SortedSpan(s, i + 1, j);
    }
  }

  /** A node of the chain: a value and the link to its successor
      (`null` at the tail). */
  class Node {
    var value: int
    var next: Node?

    /** `Node::new`: a node with no successor. */
    constructor New(data: int)
      ensures value == data && next == null
    {
      value := data;
      next := null;
    }

    /** `Node::from`: a node whose successor is `next`. */
    constructor From(data: int, next: Node?)
      ensures value == data && this.next == next
    {
      value := data;
      this.next := next;
    }
  }

  class ForwardList {
    var head: Node?
    var size: nat

    /** The values held, front to back. */
    ghost var Contents: seq<int>
    /** The nodes of the chain, front to back. */
    ghost var Spine: seq<Node>
    ghost var Repr: set<object>

    /** The representation invariant: the chain from `head` visits exactly
        the nodes of `Spine`, each once, and ends at a node without
        successor; `size` is the number of those nodes, and `head` is null
        iff `size` is zero. */
    ghost predicate Valid()
      reads this, Repr
    {
      this in Repr &&
      (forall i :: 0 <= i < |Spine| ==> Spine[i] in Repr) &&
      size == |Spine| == |Contents| &&
      (head == null <==> size == 0) &&
      (head != null ==> head == Spine[0]) &&
      (forall i :: 0 <= i < |Spine| ==> Spine[i].value == Contents[i]) &&
      (forall i :: 0 <= i < |Spine| - 1 ==> Spine[i].next == Spine[i + 1]) &&
      (0 < |Spine| ==> Spine[|Spine| - 1].next == null) &&
      (forall i, j :: 0 <= i < j < |Spine| ==> Spine[i] != Spine[j])
    }

    /** Walking the chain from the head stops at the tail: the last node of
        `Spine` is the only one without a successor. */
    lemma OnlyTailLacksSuccessor(k: nat)
      requires Valid() && k < |Spine|
      ensures Spine[k].next == null <==> k == |Spine| - 1
    {
      if k < |Spine| - 1 {
        assert Spine[k].next == Spine[k + 1];
      }
    }

    /** `ForwardList::new`: no head and a size of zero. */
    constructor ()
      ensures Valid() && fresh(Repr)
      ensures Contents == [] && head == null && size == 0
    {
      head := null;
      size := 0;
      Contents := [];
      Spine := [];
      Repr := {this};
    }

    /** `push_front`: the old chain becomes the successor of a new head. */
    method PushFront(data: int)
      requires Valid()
      modifies this
      ensures Valid() && fresh(Repr - old(Repr))
      ensures Contents == [data] + old(Contents)
      ensures size == old(size) + 1
    {
      var oldHead := head;
      var newHead := new Node.From(data, oldHead);
      head := newHead;
      size := size + 1;
      Contents := [data] + Contents;
      Spine := [newHead] + Spine;
      Repr := Repr + {newHead};
    }

    /** `push_back`: on an empty list the new node becomes the head;
        otherwise a cursor walks to the node without successor and the new
        node is linked behind it. The nodes already there keep their values
        and their order. */
    method PushBack(data: int)
      requires Valid()
      modifies Repr
      ensures Valid() && fresh(Repr - old(Repr))
      ensures Contents == old(Contents) + [data]
      ensures size == old(size) + 1
      ensures Spine[..old(|Spine|)] == old(Spine)
    {
      var tail := new Node.New(data);
      if head == null {
        head := tail;
      } else {
        var current: Node? := head;
        ghost var i := 0;
        while current != null && current.next != null
          invariant 0 <= i < |Spine| && current == Spine[i]
          decreases |Spine| - i
        {
          current := current.next;
          i := i + 1;
        }
        OnlyTailLacksSuccessor(i);
        current.next := tail;
      }
      size := size + 1;
      Contents := Contents + [data];
      Spine := Spine + [tail];
      Repr := Repr + {tail};
    }

    /** `pop_front`: fails on an empty list and changes nothing; otherwise
        the head's successor becomes the head and the old head's value is
        returned. */
    method PopFront() returns (r: Result<int>)
      requires Valid()
      modifies this
      ensures Valid() && fresh(Repr - old(Repr))
      ensures old(Contents) == [] ==>
        r == Err(EmptyList) && unchanged(this)
      ensures old(Contents) != [] ==>
        r == Ok(old(Contents)[0]) && Contents == old(Contents)[1..] && size == old(size) - 1
      ensures old(Contents) != [] ==> Spine == old(Spine)[1..]
    {
      if head == null {
        return Err(EmptyList);
      }
      var oldHead := head;
      assert |Spine| == 1 ==> oldHead.next == null;
      assert |Spine| > 1 ==> oldHead.next == Spine[1];
      head := oldHead.next;
      size := size - 1;
      Contents := Contents[1..];
      Spine := Spine[1..];
      Repr := Repr - {oldHead};
      r := Ok(oldHead.value);
    }

    /** `pop_back`: fails on an empty list and changes nothing; a one-node
        list loses its head; otherwise a cursor walks to the last node but
        one, which gives up its successor. The last value is returned. */
    method PopBack() returns (r: Result<int>)
      requires Valid()
      modifies Repr
      ensures Valid() && fresh(Repr - old(Repr))
      ensures old(Contents) == [] ==>
        r == Err(EmptyList) && unchanged(this)
      ensures old(Contents) != [] ==>
        r == Ok(old(Contents)[|old(Contents)| - 1]) &&
        Contents == old(Contents)[..|old(Contents)| - 1] && size == old(size) - 1
      ensures old(Contents) != [] ==> Spine == old(Spine)[..|old(Spine)| - 1]
      ensures old(size) == 1 ==> head == null && size == 0
    {
      if head == null {
        return Err(EmptyList);
      }
      if size == 1 {
        var removed := head.value;
        Repr := Repr - {head};
        head := null;
        size := 0;
        Contents := [];
        Spine := [];
        return Ok(removed);
      }
      var current: Node? := head;
      ghost var i := 0;
      while current.next != null && current.next.next != null
        invariant 0 <= i <= |Spine| - 2 && current == Spine[i]
        decreases |Spine| - i
      {
        current := current.next;
        i := i + 1;
      }
      OnlyTailLacksSuccessor(i + 1);
      var last := current.next;
      var removed := last.value;
      current.next := null;
      size := size - 1;
      Contents := Contents[..|Contents| - 1];
      Spine := Spine[..|Spine| - 1];
      Repr := Repr - {last};
      r := Ok(removed);
    }

    /** `is_empty`: whether there is a head, which under the invariant is
        whether the length is zero. */
    method IsEmpty() returns (r: bool)
      requires Valid()
      ensures r <==> head == null
      ensures r <==> Contents == []
      ensures r <==> size == 0
    {
      r := head == null;
    }

    /** `is_sorted`: a scan of adjacent pairs that stops with false at the
        first node whose value exceeds its successor's. */
    method IsSorted() returns (r: bool)
      requires Valid()
      ensures r <==> Sorted(Contents)
    {
      var current := head;
      ghost var i := 0;
      while current != null && current.next != null
        invariant i == 0 || i < |Spine|
        invariant current == null ==> Spine == []
        invariant current != null ==> i < |Spine| && current == Spine[i]
        invariant forall k :: 0 <= k < i ==> Contents[k] <= Contents[k + 1]
        decreases |Spine| - i
      {
        if current.value > current.next.value {
          assert Contents[i] > Contents[i + 1];
          return false;
        }
        current := current.next;
        i := i + 1;
      }
      if current != null {
        OnlyTailLacksSuccessor(i);
      }
      r := true;
    }

    /** `get`: fails when `index` is at least the length; otherwise the
        value reached after `index` successor hops from the head. */
    method Get(index: nat) returns (r: Result<int>)
      requires Valid()
      ensures index >= |Contents| ==> r == Err(IndexOutOfRange)
      ensures index < |Contents| ==> r == Ok(Contents[index])
    {
      if index >= size {
        return Err(IndexOutOfRange);
      }
      var current := head;
      for k := 0 to index
        invariant current == Spine[k]
      {
        current := current.next;
      }
      r := Ok(current.value);
    }

    /** `len`: the cached size, which the invariant keeps equal to the
        number of values held. */
    method Len() returns (r: nat)
      requires Valid()
      ensures r == |Contents|
    {
      r := size;
    }
  }
}
