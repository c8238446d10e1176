/**
  The generic singly-linked list `LinkedList<T>`: a chain of heap nodes
  reached from `head`, a `tail` reference to the last node kept for O(1)
  appends, and a cached element count `listSize`.

  The ghost fields give the public view: `Contents` is the sequence of
  elements from front to back, `Nodes` the chain of nodes that holds them,
  and `Repr` the objects the list owns. `Valid()` is the representation
  invariant every operation keeps. The exceptions of the original
  (`domain_error` on an empty list, `out_of_range` on a bad index) are
  returned as `Err`/`Fail` values and leave the list as it was.
 */
module LinkedLists {
  import opened ListSpec

  datatype Error = DomainError | OutOfRange

  /** The result of an operation that returns an element or fails. */
  datatype Result<T> = Ok(value: T) | Err(error: Error)

  /** The result of a mutation that may fail. */
  datatype Outcome = Pass | Fail(error: Error)

  class Node<T> {
    var data: T
    var next: Node?<T>

    constructor (value: T)
      ensures data == value && next == null
    {
      data := value;
      next := null;
    }
  }

  /** The set of nodes in a chain, as objects. */
  ghost function NodeSet<T>(ns: seq<Node<T>>): set<object>
  {
    set n: Node<T> | n in ns
  }

  class LinkedList<T(==)> {
    var head: Node?<T>
    var tail: Node?<T>
    var listSize: nat

    ghost var Contents: seq<T>
    ghost var Nodes: seq<Node<T>>
    ghost var Repr: set<object>

    /** Everything the invariant says except where `tail` points: the nodes
        reachable from `head` form an acyclic chain of `listSize` nodes
        holding `Contents`, and the list owns exactly those nodes. */
    ghost predicate Chain()
      reads this, Repr
    {
      && this in Repr
      && Repr == {this} + NodeSet(Nodes)
      && |Nodes| == |Contents| == listSize
      && (head == if listSize == 0 then null else Nodes[0])
      && (forall i {:trigger Nodes[i].data} :: 0 <= i < |Nodes| ==> Nodes[i].data == Contents[i])
      && (forall i {:trigger Nodes[i].next} :: 0 <= i < |Nodes| - 1 ==> Nodes[i].next == Nodes[i + 1])
      && (listSize > 0 ==> Nodes[listSize - 1].next == null)
      && (forall i, j :: 0 <= i < j < |Nodes| ==> Nodes[i] != Nodes[j])
    }

    /** The representation invariant: the chain above, with `tail` the last
        node of the chain, and null exactly when the list is empty. */
    ghost predicate Valid()
      reads this, Repr
      ensures Valid() ==> this in Repr
    {
      Chain() && tail == if listSize == 0 then null else Nodes[listSize - 1]
    }

    /** The default constructor: an empty list. */
    constructor ()
      ensures Valid() && fresh(Repr)
      ensures Contents == []
    {
      head, tail, listSize := null, null, 0;
      Contents, Nodes, Repr := [], [], {this};
    }

    /** The initializer-list constructor: appends the values in order. */
    constructor FromSeq(init: seq<T>)
      ensures Valid() && fresh(Repr)
      ensures Contents == init
    {
      head, tail, listSize := null, null, 0;
      Contents, Nodes, Repr := [], [], {this};
      new;
      var k := 0;
      while k < |init|
        invariant 0 <= k <= |init|
        invariant Valid() && fresh(Repr)
        invariant Contents == init[..k]
      {
        PushBack(init[k]);
        k := k + 1;
      }
    }

    /** The copy constructor: fresh nodes holding the other list's values in
        order, so that the two lists share no node. */
    constructor Copy(another: LinkedList<T>)
      requires another.Valid()
      ensures Valid() && fresh(Repr)
      ensures Contents == another.Contents
    {
      head, tail, listSize := null, null, 0;
      Contents, Nodes, Repr := [], [], {this};
      new;
      var current := another.head;
      ghost var k := 0;
      while current != null
        invariant 0 <= k <= |another.Nodes|
        invariant current == if k < |another.Nodes| then another.Nodes[k] else null
        invariant Valid() && fresh(Repr)
        invariant Contents == another.Contents[..k]
        decreases |another.Nodes| - k
      {
        PushBack(current.data);
        current := current.next;
        k := k + 1;
      }
    }

    /** `front`: the first element, or `DomainError` on an empty list. */
    method Front() returns (r: Result<T>)
      requires Valid()
      ensures Contents == [] ==> r == Err(DomainError)
      ensures Contents != [] ==> r == Ok(Contents[0])
    {
      if head == null {
        return Err(DomainError);
      }
      return Ok(head.data);
    }

    /** `back`: the last element, or `DomainError` on an empty list. */
    method Back() returns (r: Result<T>)
      requires Valid()
      ensures Contents == [] ==> r == Err(DomainError)
      ensures Contents != [] ==> r == Ok(Contents[|Contents| - 1])
    {
      if tail == null {
        return Err(DomainError);
      }
      return Ok(tail.data);
    }

    method Size() returns (n: nat)
      requires Valid()
      ensures n == |Contents|
    {
      return listSize;
    }

    method Empty() returns (e: bool)
      requires Valid()
      ensures e <==> Contents == []
    {
      return head == null;
    }

    method PushFront(val: T)
      requires Valid()
      modifies this
      ensures Valid() && fresh(Repr - old(Repr))
      ensures Contents == [val] + old(Contents)
    {
      var newNode := new Node(val);
      var e := Empty();
      if e {
        head, tail := newNode, newNode;
      } else {
        newNode.next := head;
        head := newNode;
      }
      listSize := listSize + 1;
      Contents, Nodes := [val] + Contents, [newNode] + Nodes;
      Repr := {this} + NodeSet(Nodes);
    }

    method PushBack(val: T)
      requires Valid()
      modifies Repr
      ensures Valid() && fresh(Repr - old(Repr))
      ensures Contents == old(Contents) + [val]
    {
      var newNode := new Node(val);
      var e := Empty();
      if e {
        head, tail := newNode, newNode;
      } else {
        tail.next := newNode;
        tail := newNode;
      }
      listSize := listSize + 1;
      Contents, Nodes := Contents + [val], Nodes + [newNode];
      Repr := {this} + NodeSet(Nodes);
    }

    /** `pop_front`: drops the first element; `tail` is cleared with `head`
        when the list becomes empty. */
    method PopFront() returns (o: Outcome)
      requires Valid()
      modifies this
      ensures Valid() && Repr <= old(Repr)
      ensures old(Contents) == [] ==> o == Fail(DomainError) && Contents == []
      ensures old(Contents) != [] ==> o == Pass && Contents == old(Contents)[1..]
    {
      var e := Empty();
      if e {
        return Fail(DomainError);
      }
      head := head.next;
      if head == null {
        tail := null;
      }
      listSize := listSize - 1;
      Contents, Nodes := Contents[1..], Nodes[1..];
      Repr := {this} + NodeSet(Nodes);
      return Pass;
    }

    /** `pop_back`: walks to the node before the last, unlinks the last and
        makes that node the tail. */
    method PopBack() returns (o: Outcome)
      requires Valid()
      modifies Repr
      ensures Valid() && Repr <= old(Repr)
      ensures old(Contents) == [] ==> o == Fail(DomainError) && Contents == []
      ensures old(Contents) != [] ==> o == Pass && Contents == old(Contents)[..|old(Contents)| - 1]
    {
      var e := Empty();
      if e {
        return Fail(DomainError);
      }
      if head.next == null {
        head, tail := null, null;
        listSize := listSize - 1;
        Contents, Nodes, Repr := [], [], {this};
        return Pass;
      }
      var current := head;
      ghost var k := 0;
      while current.next.next != null
        invariant k + 1 < listSize && current == Nodes[k]
        decreases listSize - k
      {
        current := current.next;
        k := k + 1;
      }
      current.next := null;
      tail := current;
      listSize := listSize - 1;
      Contents, Nodes := Contents[..listSize], Nodes[..listSize];
      Repr := {this} + NodeSet(Nodes);
      return Pass;
    }

    /** `resize(n, fill_value)`: appends copies of `fill` or pops from the
        back until the list has `n` elements. */
    method Resize(n: nat, fill: T)
      requires Valid()
      modifies Repr
      ensures Valid() && fresh(Repr - old(Repr))
      ensures Contents == Resized(old(Contents), n, fill)
    {
      if listSize == n {
        return;
      }
      while listSize < n
        invariant Valid() && fresh(Repr - old(Repr))
        invariant |old(Contents)| <= listSize
        invariant listSize <= n || listSize == |old(Contents)|
        invariant Contents == Resized(old(Contents), listSize, fill)
      {
        PushBack(fill);
      }
      while listSize > n
        invariant Valid() && fresh(Repr - old(Repr))
        invariant n <= listSize
        invariant listSize > n ==> listSize <= |old(Contents)|
        invariant Contents == Resized(old(Contents), listSize, fill)
      {
        var o := PopBack();
      }
    }

    /** `clear`: pops from the front until the list is empty. */
    method Clear()
      requires Valid()
      modifies this
      ensures Valid() && Repr == {this}
      ensures Contents == []
    {
      while head != null
        invariant Valid()
        decreases listSize
      {
        var o := PopFront();
      }
    }

    /** `remove`: unlinks the first node whose element equals `target`;
        nothing happens when there is none. Unlike the original, this
        version moves `tail` to the predecessor when the unlinked node was
        the last one (see `RemoveAsWritten`). */
    method Remove(target: T)
      requires Valid()
      modifies Repr
      ensures Valid() && Repr <= old(Repr)
      ensures Contents == WithoutFirst(old(Contents), target)
    {
      var e := Empty();
      if e {
        return;
      }
      if head.data == target {
        var o := PopFront();
        return;
      }
      var current;
      ghost var k;
      current, k := FindBeforeMatch(target);
      if current.next != null {
        ghost var oldNodes := Nodes;
        UnlinkAfter(current, k);
        if current.next == null {
          assert current == Nodes[k] && k == listSize - 1;
          tail := current;
        } else {
          assert tail == oldNodes[listSize] == Nodes[listSize - 1];
        }
      }
    }

    /** `remove` exactly as the original writes it: when the first match is
        not at the head, the node is unlinked but `tail` is left alone. The
        invariant survives except when the unlinked node was the tail. */
    method RemoveAsWritten(target: T)
      requires Valid()
      modifies Repr
      ensures Chain() && Repr <= old(Repr)
      ensures Contents == WithoutFirst(old(Contents), target)
      ensures Valid() <==> !RemovesTail(old(Contents), target)
      ensures RemovesTail(old(Contents), target) ==>
        tail == old(tail) && tail != null && tail.data == target
    {
      var e := Empty();
      if e {
        return;
      }
      if head.data == target {
        assert listSize >= 2 ==> Contents[..listSize - 1][0] == target;
        var o := PopFront();
        return;
      }
      var current;
      ghost var k;
      current, k := FindBeforeMatch(target);
      if current.next != null {
        ghost var n, c, oldNodes := listSize, Contents, Nodes;
        if k + 2 == n {
          assert c[..n - 1] == c[..k + 1];
          assert RemovesTail(c, target);
        } else {
          assert c[..n - 1][k + 1] == target;
        }
        UnlinkAfter(current, k);
        if k + 2 == n {
          assert Nodes[listSize - 1] == oldNodes[k] != oldNodes[n - 1];
        } else {
          assert tail == oldNodes[n - 1] == Nodes[listSize - 1];
        }
      } else {
        assert !RemovesTail(Contents, target);
      }
    }

    /** The search loop of `remove`, started at a head that does not match:
        stops at the node whose successor holds the first match, or at the
        last node when there is no match. */
    method FindBeforeMatch(target: T) returns (current: Node<T>, ghost k: nat)
      requires Valid() && listSize > 0 && Contents[0] != target
      ensures k < listSize && current == Nodes[k]
      ensures target !in Contents[..k + 1]
      ensures k + 1 < listSize ==>
        Contents[k + 1] == target && WithoutFirst(Contents, target) == Contents[..k + 1] + Contents[k + 2..]
      ensures k + 1 == listSize ==> target !in Contents && WithoutFirst(Contents, target) == Contents
    {
      current := head;
      k := 0;
      while current.next != null && current.next.data != target
        invariant k < listSize && current == Nodes[k]
        invariant target !in Contents[..k + 1]
        decreases listSize - k
      {
        current := current.next;
        k := k + 1;
      }
      if current.next != null {
        WithoutFirstAt(Contents, target, k + 1);
      } else {
        assert Contents == Contents[..k + 1];
        WithoutFirstAbsent(Contents, target);
      }
    }

    /** Unlinks the node after `current` (the `k`-th node), as `remove` does
        once it has found a match: the chain stays well formed, `tail` is
        not touched. */
    method UnlinkAfter(current: Node<T>, ghost k: nat)
      requires Valid() && k + 1 < listSize && current == Nodes[k]
      modifies this, current
      ensures Chain() && tail == old(tail) && Repr <= old(Repr)
      ensures Nodes == old(Nodes[..k + 1] + Nodes[k + 2..])
      ensures Contents == old(Contents[..k + 1] + Contents[k + 2..])
    {
      ghost var n := listSize;
      ghost var ns := Nodes[..k + 1] + Nodes[k + 2..];
      assert forall i :: 0 <= i <= k ==> ns[i] == Nodes[i];
      assert forall i :: k + 1 <= i < n - 1 ==> ns[i] == Nodes[i + 1];
      current.next := current.next.next;
      listSize := listSize - 1;
      Contents, Nodes := Contents[..k + 1] + Contents[k + 2..], ns;
      Repr := {this} + NodeSet(Nodes);
    }

    /** `remove_all`: scans by index; at a match it calls `remove` (which
        removes exactly that element, the first match) and rescans the same
        index. */
    method RemoveAll(target: T)
      requires Valid()
      modifies Repr
      ensures Valid() && Repr <= old(Repr)
      ensures Contents == Without(old(Contents), target)
    {
      var i := 0;
      while i < listSize
        invariant Valid() && Repr <= old(Repr)
        invariant i <= listSize
        invariant target !in Contents[..i]
        invariant Without(Contents, target) == Without(old(Contents), target)
        decreases listSize, listSize - i
      {
        var x := At(i);
        if x == Ok(target) {
          WithoutFirstAt(Contents, target, i);
          WithoutDropHit(Contents, target, i);
          Remove(target);
        } else {
          i := i + 1;
        }
      }
      assert Contents == Contents[..i];
      WithoutIdentity(Contents, target);
    }

    /** `reverse`: swaps the elements at `i` and `size() - 1 - i` for each
        `i` below half the size. */
    method Reverse()
      requires Valid()
      modifies Repr
      ensures Valid() && Repr == old(Repr)
      ensures Contents == Reversed(old(Contents))
    {
      ghost var c0 := Contents;
      var n := listSize;
      var i := 0;
      while i < n / 2
        invariant Valid() && Repr == old(Repr) && listSize == n == |c0|
        invariant i <= n / 2
        invariant forall k :: 0 <= k < i ==> Contents[k] == c0[n - 1 - k] && Contents[n - 1 - k] == c0[k]
        invariant forall k :: i <= k < n - i ==> Contents[k] == c0[k]
      {
        SwapAt(i, listSize - 1 - i);
        i := i + 1;
      }
      forall k | 0 <= k < n
        ensures Contents[k] == Reversed(c0)[k]
      {
        ReversedAt(c0, k);
      }
    }

    /** `std::swap((*this)[i], (*this)[j])`: exchanges two elements through
        indexed reads and writes. */
    method SwapAt(i: nat, j: nat)
      requires Valid() && i < listSize && j < listSize
      modifies Repr
      ensures Valid() && Repr == old(Repr)
      ensures Contents == old(Contents)[i := old(Contents)[j]][j := old(Contents)[i]]
    {
      var a := At(i);
      var b := At(j);
      var o := Set(i, b.value);
      o := Set(j, a.value);
    }

    /** `contains`: scans by index for an element equal to `target`. */
    method Contains(target: T) returns (found: bool)
      requires Valid()
      ensures found <==> target in Contents
    {
      var i := 0;
      while i < listSize
        invariant i <= listSize
        invariant target !in Contents[..i]
      {
        var x := At(i);
        if x == Ok(target) {
          return true;
        }
        i := i + 1;
      }
      assert Contents == Contents[..i];
      return false;
    }

    /** `operator=` from an initializer list: clears, then appends the values. */
    method AssignSeq(init: seq<T>)
      requires Valid()
      modifies this
      ensures Valid() && fresh(Repr - {this})
      ensures Contents == init
    {
      Clear();
      var k := 0;
      while k < |init|
        invariant 0 <= k <= |init|
        invariant Valid() && fresh(Repr - {this})
        invariant Contents == init[..k]
      {
        PushBack(init[k]);
        k := k + 1;
      }
    }

    /** `operator=` from another list: remembers the other list's head,
        clears, then appends the other list's values in order into fresh
        nodes. Self-assignment is excluded (the original reads freed nodes). */
    method Assign(another: LinkedList<T>)
      requires Valid() && another.Valid() && another != this
      modifies this
      ensures Valid() && fresh(Repr - {this})
      ensures Contents == another.Contents
    {
      var current := another.head;
      Clear();
      ghost var k := 0;
      while current != null
        invariant 0 <= k <= |another.Nodes|
        invariant current == if k < |another.Nodes| then another.Nodes[k] else null
        invariant Valid() && fresh(Repr - {this})
        invariant Contents == another.Contents[..k]
        decreases |another.Nodes| - k
      {
        PushBack(current.data);
        current := current.next;
        k := k + 1;
      }
    }

    /** `operator==`: equal sizes and equal elements at every index. */
    method Equals(another: LinkedList<T>) returns (eq: bool)
      requires Valid() && another.Valid()
      ensures eq <==> Contents == another.Contents
    {
      var n := Size();
      var m := another.Size();
      if n != m {
        return false;
      }
      var i := 0;
      while i < n
        invariant i <= n
        invariant Contents[..i] == another.Contents[..i]
      {
        var a := another.At(i);
        var b := At(i);
        if a != b {
          return false;
        }
        i := i + 1;
      }
      assert Contents == Contents[..i] && another.Contents == another.Contents[..i];
      return true;
    }

    /** `operator!=`: the negation of `operator==`. */
    method NotEquals(another: LinkedList<T>) returns (ne: bool)
      requires Valid() && another.Valid()
      ensures ne <==> Contents != another.Contents
    {
      var eq := Equals(another);
      return !eq;
    }

    /** `operator[]` read: walks `index` links from `head`; `OutOfRange`
        when `index >= size()`. */
    method At(index: nat) returns (r: Result<T>)
      requires Valid()
      ensures index >= |Contents| ==> r == Err(OutOfRange)
      ensures index < |Contents| ==> r == Ok(Contents[index])
    {
      if index >= listSize {
        return Err(OutOfRange);
      }
      var current := head;
      var i := 0;
      while i < index
        invariant i <= index && current == Nodes[i]
      {
        current := current.next;
        i := i + 1;
      }
      return Ok(current.data);
    }

    /** `operator[]` write (assignment through the returned reference):
        walks `index` links from `head` and overwrites that node's element;
        `OutOfRange` when `index >= size()`. */
    method Set(index: nat, value: T) returns (o: Outcome)
      requires Valid()
      modifies Repr
      ensures Valid() && Repr == old(Repr)
      ensures index >= |old(Contents)| ==> o == Fail(OutOfRange) && Contents == old(Contents)
      ensures index < |old(Contents)| ==> o == Pass && Contents == old(Contents)[index := value]
    {
      if index >= listSize {
        return Fail(OutOfRange);
      }
      var current := head;
      var i := 0;
      while i < index
        invariant i <= index && current == Nodes[i]
      {
        current := current.next;
        i := i + 1;
      }
      current.data := value;
      Contents := Contents[index := value];
      return Pass;
    }
  }

  /** The first occurrence of `t` is the last element of a list of two or
      more: the case in which the original `remove` leaves `tail` behind. */
  predicate RemovesTail<T(==)>(s: seq<T>, t: T)
  {
    |s| >= 2 && s[|s| - 1] == t && t !in s[..|s| - 1]
  }

  /** `resize(n)` for integer elements: pads with 0. */
  method ResizeZero(l: LinkedList<int>, n: nat)
    requires l.Valid()
    modifies l.Repr
    ensures l.Valid() && fresh(l.Repr - old(l.Repr))
    ensures l.Contents == Resized(old(l.Contents), n, 0)
  {
    l.Resize(n, 0);
  }

  /** The original `remove` on the list [1, 2] with target 2: the contents
      become [1], but `tail` still refers to the unlinked node holding 2, so
      the invariant is broken and a later `back` or `push_back` goes through
      a node that is no longer in the list. */
  method RemoveTailCounterexample() returns (l: LinkedList<int>)
    ensures l.Contents == [1] && !l.Valid()
    ensures l.tail != null && l.tail.data == 2
  {
    l := new LinkedList.FromSeq([1, 2]);
    l.RemoveAsWritten(2);
  }

  /** `remove_all(2)` on `[1, 2]` as written: index 0 holds 1 and is passed,
      index 1 holds 2 and the original `remove(2)` unlinks the last node without
      moving `tail`; the index stays 1, which now equals `size()`, so the loop
      ends with the invariant broken. */
  method RemoveAllTailCounterexample() returns (l: LinkedList<int>)
    ensures l.Contents == [1] && !l.Valid()
    ensures l.listSize == 1
    ensures l.tail != null && l.tail.data == 2
  {
    l := new LinkedList.FromSeq([1, 2]);
    var first := l.At(0);
    assert first == Ok(1);
    var second := l.At(1);
    assert second == Ok(2);
    l.RemoveAsWritten(2);
  }

  /** A copy shares no node with its original: appending to the copy leaves
      the original as it was. */
  method CopyIsIndependent<T(==)>(a: LinkedList<T>, x: T) returns (b: LinkedList<T>)
    requires a.Valid()
    ensures a.Valid() && b.Valid() && fresh(b.Repr)
    ensures a.Contents == old(a.Contents) && b.Contents == old(a.Contents) + [x]
  {
    b := new LinkedList.Copy(a);
    b.PushBack(x);
  }

  /** `push_front` followed by `pop_front` gives back the list it started from. */
  method PushFrontPopFront<T(==)>(l: LinkedList<T>, x: T)
    requires l.Valid()
    modifies l
    ensures l.Valid() && l.Contents == old(l.Contents)
  {
    l.PushFront(x);
    var o := l.PopFront();
  }

  /** `reverse` applied twice gives back the original order. */
  method ReverseTwice<T(==)>(l: LinkedList<T>)
    requires l.Valid()
    modifies l.Repr
    ensures l.Valid() && l.Repr == old(l.Repr) && l.Contents == old(l.Contents)
  {
    l.Reverse();
    l.Reverse();
    ReversedTwice(old(l.Contents));
  }
}
