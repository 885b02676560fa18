/** The doubly linked list of src/list.c, updated in place: push at the head, pop at the
    tail, the backward walk used when lists are written out, and the forward walk that frees
    a list and adds up its bytes. */
module DList {
  import opened Common
  import opened Table
  import opened Payloads
  import opened Snapshot

  class ListNode {
    const value: bytes
    var prev: ListNode?
    var next: ListNode?

    constructor (value: bytes)
      ensures this.value == value && prev == null && next == null
    {
      this.value := value;
      prev, next := null, null;
    }
  }

  ghost function At(nodes: seq<ListNode>, i: int): ListNode? {
    if 0 <= i < |nodes| then nodes[i] else null
  }

  /** Both pointers of every node agree with its place in the sequence. */
  ghost predicate Threaded(nodes: seq<ListNode>)
    reads nodes
  {
    forall i | 0 <= i < |nodes| :: nodes[i].prev == At(nodes, i - 1) && nodes[i].next == At(nodes, i + 1)
  }

  ghost predicate Holds(nodes: seq<ListNode>, items: seq<bytes>) {
    |nodes| == |items| && forall i | 0 <= i < |nodes| :: nodes[i].value == items[i]
  }

  lemma SameSize(nodes: seq<ListNode>, items: seq<bytes>)
    requires Holds(nodes, items)
    ensures |nodes| == |items|
  {
  }

  lemma HeldAt(nodes: seq<ListNode>, items: seq<bytes>, i: nat)
    requires Holds(nodes, items) && i < |nodes|
    ensures |items| == |nodes| && nodes[i].value == items[i]
  {
  }

  /** The first and the last node are met at one end only; the pointers spelled out. */
  lemma Ends(c: seq<ListNode>)
    requires NoDup(c) && Threaded(c)
    ensures forall t | 0 < t < |c| :: c[t] != c[0]
    ensures forall t | 0 <= t < |c| - 2 :: c[t] != c[|c| - 2]
    ensures forall t | 0 <= t < |c| :: c[t].prev == At(c, t - 1) && c[t].next == At(c, t + 1)
  {
  }

  lemma AtEnds(c: seq<ListNode>)
    ensures At(c, -1) == null == At(c, -2) && At(c, |c|) == null
    ensures c == [] ==> At(c, 0) == null
    ensures c != [] ==> At(c, 0) == c[0] && At(c, |c| - 1) == c[|c| - 1]
    ensures |c| > 1 ==> At(c, |c| - 2) == c[|c| - 2]
  {
  }

  lemma AtPushed(x: ListNode, c: seq<ListNode>, i: int)
    ensures At([x] + c, i) == if i == 0 then x else At(c, i - 1)
  {
  }

  lemma AtPopped(c: seq<ListNode>, i: int)
    requires c != []
    ensures At(c[..|c| - 1], i) == if i == |c| - 1 then null else At(c, i)
  {
  }

  /** `x` pushed in front of `c`, given what its pointers and those of `c` now are. */
  lemma Pushed(x: ListNode, c: seq<ListNode>, items: seq<bytes>)
    requires NoDup(c) && x !in c && Holds(c, items)
    requires x.prev == null && x.next == At(c, 0)
    requires forall t | 0 <= t < |c| :: c[t].prev == (if t == 0 then x else At(c, t - 1)) && c[t].next == At(c, t + 1)
    ensures NoDup([x] + c) && Threaded([x] + c) && Holds([x] + c, [x.value] + items)
    ensures At([x] + c, 0) == x && At([x] + c, |c|) == if c == [] then x else At(c, |c| - 1)
  {
    hide At;
    var d := [x] + c;
    AtPushed(x, c, 0);
    AtPushed(x, c, |c|);
    forall t | 0 <= t < |d|
      ensures d[t].prev == At(d, t - 1) && d[t].next == At(d, t + 1)
    {
      AtPushed(x, c, t - 1);
      AtPushed(x, c, t + 1);
      AtEnds(c);
      if t > 0 {
        assert d[t] == c[t - 1];
      }
    }
  }

  /** The last node of `c` unlinked, given what the pointers of the others now are. */
  lemma Popped(c: seq<ListNode>, items: seq<bytes>)
    requires NoDup(c) && c != [] && Holds(c, items)
    requires forall t | 0 <= t < |c| - 1 ::
               c[t].prev == At(c, t - 1) && c[t].next == if t == |c| - 2 then null else At(c, t + 1)
    ensures var n := |c| - 1; NoDup(c[..n]) && Threaded(c[..n]) && Holds(c[..n], items[..n])
    ensures var n := |c| - 1; At(c[..n], 0) == (if n == 0 then null else At(c, 0)) && At(c[..n], n - 1) == At(c, n - 1)
  {
    hide At;
    var d := c[..|c| - 1];
    AtPopped(c, 0);
    AtPopped(c, |c| - 2);
    forall t | 0 <= t < |d|
      ensures d[t].prev == At(d, t - 1) && d[t].next == At(d, t + 1)
    {
      AtPopped(c, t - 1);
      AtPopped(c, t + 1);
      assert d[t] == c[t];
    }
  }

  class LinkedList {
    var head: ListNode?
    var tail: ListNode?
    var count: nat
    ghost var nodes: seq<ListNode>
    ghost var items: seq<bytes>

    ghost predicate Valid()
      reads this, nodes
    {
      && count == |nodes| && NoDup(nodes) && Threaded(nodes) && Holds(nodes, items)
      && head == At(nodes, 0) && tail == At(nodes, |nodes| - 1)
    }

    constructor ()
      ensures Valid() && items == [] && nodes == []
    {
      head, tail, count := null, null, 0;
      nodes, items := [], [];
    }

    method PushHead(value: bytes)
      requires Valid()
      modifies this, nodes
      ensures Valid() && items == [value] + old(items) && nodes[1..] == old(nodes) && fresh(nodes[0])
    {
      hide NoDup, Threaded, Holds, At;
      ghost var c := nodes;
      Ends(c);
      AtEnds(c);
      assert forall x | x in c :: allocated(x);
      var node := new ListNode(value);
      node.prev := null;
      node.next := head;
      if head != null {
        head.prev := node;
      }
      head := node;
      if tail == null {
        tail := node;
      }
      count := count + 1;
      nodes, items := [node] + c, [value] + items;
      Pushed(node, c, old(items));
    }

    method PopTail() returns (value: Option<bytes>)
      requires Valid()
      modifies this, nodes
      ensures Valid()
      ensures old(items) == [] ==> value == None && items == [] && nodes == old(nodes)
      ensures old(items) != [] ==>
                && value == Some(old(items)[|old(items)| - 1])
                && items == old(items)[..|old(items)| - 1] && nodes == old(nodes)[..|old(nodes)| - 1]
    {
      hide NoDup, Threaded, Holds, At;
      ghost var c := nodes;
      Ends(c);
      AtEnds(c);
      SameSize(c, items);
      if tail == null || count == 0 {
        return None;
      }
      var node := tail;
      assert node.value == items[|c| - 1] by { HeldAt(c, items, |c| - 1); }
      value := Some(node.value);
      tail := node.prev;
      if tail != null {
        tail.next := null;
      } else {
        head := null;
      }
      count := count - 1;
      nodes, items := c[..|c| - 1], items[..|items| - 1];
      Popped(c, old(items));
    }

    /** The walk from the tail by which the log rewrite and the snapshot visit a list. */
    method Backward() returns (values: seq<bytes>)
      requires Valid()
      ensures values == Reverse(items)
    {
      hide NoDup;
      values := [];
      var node := tail;
      ghost var left := |nodes|;
      assert items[left..] == [];
      while node != null
        invariant 0 <= left <= |nodes| && node == At(nodes, left - 1)
        invariant values == Reverse(items[left..])
        decreases left
      {
        values := values + [node.value];
        node, left := node.prev, left - 1;
        assert items[left..] == [items[left]] + items[left + 1..];
      }
      assert items[0..] == items;
    }

    /** list_destroy: the bytes given back are those the accounting charged for the list. */
    method Destroy() returns (freed: nat)
      requires Valid()
      ensures freed == PayloadBytes(PList(items))
    {
      freed := SIZEOF_LIST;
      var node := head;
      ghost var i := 0;
      while node != null
        invariant 0 <= i <= |nodes| && node == At(nodes, i)
        invariant freed + NodeBytes(items[i..], SIZEOF_LIST_NODE) == PayloadBytes(PList(items))
        decreases |nodes| - i
      {
        assert items[i..][1..] == items[i + 1..];
        freed := freed + ListNodeBytes(node.value);
        node, i := node.next, i + 1;
      }
    }
  }
}
