/** The kernel's circular doubly linked list.  A list is the sequence of its nodes, head first. */
module KernelList {

  /** A structure with an embedded list_head.  Null stands for the poison pointers of a deleted entry. */
  class ListNode<T> {
    var next: ListNode?<T>
    var prev: ListNode?<T>
    var data: T

    /** INIT_LIST_HEAD: a list of its own. */
    constructor (data: T)
      ensures next == this && prev == this && this.data == data
    {
      this.data := data;
      next, prev := this, this;
    }
  }

  /** The nodes are distinct, each points to its neighbours, and the ends meet. */
  ghost predicate Ring<T>(s: seq<ListNode<T>>)
    reads s
  {
    && |s| > 0
    && (forall i, j :: 0 <= i < j < |s| ==> s[i] != s[j])
    && (forall i :: 0 <= i < |s| - 1 ==> s[i].next == s[i + 1])
    && (forall i :: 0 < i < |s| ==> s[i].prev == s[i - 1])
    && s[|s| - 1].next == s[0] && s[0].prev == s[|s| - 1]
  }

  function InsertAt<T>(s: seq<T>, i: nat, x: T): seq<T>
    requires i <= |s|
  {
    s[..i] + [x] + s[i..]
  }

  function RemoveAt<T>(s: seq<T>, i: nat): seq<T>
    requires i < |s|
  {
    s[..i] + s[i + 1..]
  }

  /** __list_add: insert between two known neighbours. */
  method InsertBetween<T>(node: ListNode<T>, prev: ListNode<T>, next: ListNode<T>,
                            ghost s: seq<ListNode<T>>, ghost i: nat)
    requires Ring(s) && i < |s| && prev == s[i] && next == s[if i == |s| - 1 then 0 else i + 1]
    requires node !in s
    modifies node`next, node`prev, prev`next, next`prev
    ensures Ring(InsertAt(s, i + 1, node))
  {
    next.prev := node;
    node.next := next;
    node.prev := prev;
    prev.next := node;
    ghost var t := InsertAt(s, i + 1, node);
    assert forall k :: 0 <= k < |t| ==> t[k] == if k <= i then s[k] else if k == i + 1 then node else s[k - 1];
    forall j, k | 0 <= j < k < |t| ensures t[j] != t[k] {
      assert j != i + 1 ==> t[j] in s;
      assert k != i + 1 ==> t[k] in s;
    }
    forall k | 0 <= k < |t| - 1 ensures t[k].next == t[k + 1] {
      assert k < i ==> s[k].next == s[k + 1];
      assert k > i + 1 ==> s[k - 1].next == s[k];
    }
    forall k | 0 < k < |t| ensures t[k].prev == t[k - 1] {
      assert 0 < k <= i ==> s[k].prev == s[k - 1];
      assert k > i + 2 ==> s[k - 1].prev == s[k - 2];
    }
  }

  /** list_add: insert behind a node of the list, which need not be its head. */
  method ListAdd<T>(node: ListNode<T>, at: ListNode<T>, ghost s: seq<ListNode<T>>, ghost i: nat)
    requires Ring(s) && i < |s| && at == s[i] && node !in s
    modifies node`next, node`prev, s`next, s`prev
    ensures Ring(InsertAt(s, i + 1, node))
  {
    assert at.next == s[if i == |s| - 1 then 0 else i + 1];
    InsertBetween(node, at, at.next, s, i);
  }

  /** list_add_tail: insert in front of a node of the list; in front of the head is at the end. */
  method ListAddTail<T>(node: ListNode<T>, at: ListNode<T>, ghost s: seq<ListNode<T>>, ghost i: nat)
    requires Ring(s) && i < |s| && at == s[i] && node !in s
    modifies node`next, node`prev, s`next, s`prev
    ensures Ring(InsertAt(s, if i == 0 then |s| else i, node))
  {
    assert at.prev == s[if i == 0 then |s| - 1 else i - 1];
    InsertBetween(node, at.prev, at, s, if i == 0 then |s| - 1 else i - 1);
  }

  /** __list_del: make two neighbours of an entry point to each other. */
  method UnlinkBetween<T>(prev: ListNode<T>, next: ListNode<T>)
    modifies next`prev, prev`next
    ensures next.prev == prev && prev.next == next
  {
    next.prev := prev;
    prev.next := next;
  }

  /** list_del: the others form a list, and the entry is poisoned. */
  method ListDel<T>(node: ListNode<T>, ghost s: seq<ListNode<T>>, ghost i: nat)
    requires Ring(s) && 0 < i < |s| && node == s[i]
    modifies s`next, s`prev
    ensures Ring(RemoveAt(s, i))
    ensures node.next == null && node.prev == null
  {
    assert node.prev == s[i - 1] && node.next == s[if i == |s| - 1 then 0 else i + 1];
    UnlinkBetween(node.prev, node.next);
    node.next, node.prev := null, null;
  }

  /** list_empty */
  method ListEmpty<T>(head: ListNode<T>, ghost s: seq<ListNode<T>>) returns (empty: bool)
    requires Ring(s) && head == s[0]
    ensures empty <==> |s| == 1
  {
    assert |s| > 1 ==> head.next == s[1];
    empty := head.next == head;
  }

  function Reversed<T>(s: seq<T>): (r: seq<T>)
    ensures |r| == |s| && forall k :: 0 <= k < |s| ==> r[k] == s[|s| - 1 - k]
  {
    if s == [] then [] else Reversed(s[1..]) + [s[0]]
  }

  /** list_for_each_entry */
  method ForEach<T>(head: ListNode<T>, ghost s: seq<ListNode<T>>) returns (visited: seq<ListNode<T>>)
    requires Ring(s) && head == s[0]
    ensures visited == s[1..]
  {
    visited := [];
    var pos := head.next;
    while pos != head
      invariant |visited| < |s| && visited == s[1..|visited| + 1]
      invariant pos == if |visited| == |s| - 1 then head else s[|visited| + 1]
      decreases |s| - |visited|
    {
      visited := visited + [pos];
      pos := pos.next;
    }
  }

  /** list_for_each_entry_reverse */
  method ForEachReverse<T>(head: ListNode<T>, ghost s: seq<ListNode<T>>) returns (visited: seq<ListNode<T>>)
    requires Ring(s) && head == s[0]
    ensures visited == Reversed(s[1..])
  {
    visited := [];
    var pos := head.prev;
    while pos != head
      invariant |visited| < |s|
      invariant forall k :: 0 <= k < |visited| ==> visited[k] == s[|s| - 1 - k]
      invariant pos == s[|s| - 1 - |visited|]
      decreases |s| - |visited|
    {
      visited := visited + [pos];
      pos := pos.prev;
    }
  }
}
