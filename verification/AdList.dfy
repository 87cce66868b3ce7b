/**
 * The doubly linked list of adlist.c. Every operation is proved to be its operation on the
 * sequence of nodes, with head, tail, prev, next and len kept consistent.
 */
module AdList {
  class Node<T> {
    var prev: Node?<T>
    var next: Node?<T>
    var value: T

    constructor (v: T)
      ensures prev == null && next == null && value == v
    {
      prev, next, value := null, null, v;
    }
  }

  /** The node at a position, or null outside the list. */
  ghost function At<T>(ns: seq<Node<T>>, i: int): (n: Node?<T>) {
    if 0 <= i < |ns| then ns[i] else null
  }

  ghost predicate Linked<T>(ns: seq<Node<T>>, i: nat)
    requires i < |ns|
    reads ns[i]
  {
    ns[i].prev == At(ns, i - 1) && ns[i].next == At(ns, i + 1)
  }

  ghost predicate Distinct<T>(ns: seq<T>) { forall i, j :: 0 <= i < j < |ns| ==> ns[i] != ns[j] }

  function Reversed<T>(s: seq<T>): (r: seq<T>)
    ensures |r| == |s| && forall i :: 0 <= i < |s| ==> r[i] == s[|s| - 1 - i]
  {
    if s == [] then [] else Reversed(s[1..]) + [s[0]]
  }

  class List<T(==)> {
    var head: Node?<T>
    var tail: Node?<T>
    var len: nat
    ghost var nodes: seq<Node<T>>

    ghost predicate Valid()
      reads this, nodes
    {
      && len == |nodes| && Distinct(nodes)
      && head == At(nodes, 0) && tail == At(nodes, |nodes| - 1)
      && forall i :: 0 <= i < |nodes| ==> Linked(nodes, i)
    }

    method Length() returns (n: nat)
      requires Valid()
      ensures n == |nodes| && head == At(nodes, 0) && tail == At(nodes, |nodes| - 1)
    {
      n := len;
    }

    ghost function Values(): (vs: seq<T>)
      reads this, nodes
    {
      seq(|nodes|, i requires 0 <= i < |nodes| reads this, nodes => nodes[i].value)
    }

    constructor ()
      ensures Valid() && nodes == []
    {
      head, tail, len, nodes := null, null, 0, [];
    }

    method LinkNodeHead(node: Node<T>)
      requires Valid() && node !in nodes
      modifies this, nodes`prev, nodes`next, node`prev, node`next
      ensures Valid() && nodes == [node] + old(nodes)
    {
      if len == 0 {
        head, tail := node, node;
        node.prev, node.next := null, null;
      } else {
        node.prev := null;
        node.next := head;
        head.prev := node;
        head := node;
      }
      len := len + 1;
      nodes := [node] + nodes;
      forall i | 0 <= i < |nodes| ensures Linked(nodes, i) {
        if i > 0 { assert old(Linked(nodes, i - 1)); }
      }
    }

    method LinkNodeTail(node: Node<T>)
      requires Valid() && node !in nodes
      modifies this, nodes`prev, nodes`next, node`prev, node`next
      ensures Valid() && nodes == old(nodes) + [node]
    {
      if len == 0 {
        head, tail := node, node;
        node.prev, node.next := null, null;
      } else {
        node.prev := tail;
        node.next := null;
        tail.next := node;
        tail := node;
      }
      len := len + 1;
      nodes := nodes + [node];
      forall i | 0 <= i < |nodes| ensures Linked(nodes, i) {
        if i < |old(nodes)| { assert old(Linked(nodes, i)); }
      }
    }

    method UnlinkNode(node: Node<T>, ghost k: nat)
      requires Valid() && k < |nodes| && nodes[k] == node
      modifies this, nodes`prev, nodes`next
      ensures Valid() && nodes == old(nodes[..k] + nodes[k + 1..])
      ensures node.prev == null && node.next == null
    {
      assert Linked(nodes, k);
      assert k > 0 ==> Linked(nodes, k - 1);
      assert k + 1 < |nodes| ==> Linked(nodes, k + 1);
      if node.prev != null { node.prev.next := node.next; } else { head := node.next; }
      if node.next != null { node.next.prev := node.prev; } else { tail := node.prev; }
      node.next := null;
      node.prev := null;
      len := len - 1;
      nodes := nodes[..k] + nodes[k + 1..];
      forall i | 0 <= i < |nodes| ensures Linked(nodes, i) {
        if i < k { assert old(Linked(nodes, i)); } else { assert old(Linked(nodes, i + 1)); }
      }
    }

    method AddNodeHead(value: T)
      requires Valid()
      modifies this, nodes`prev, nodes`next
      ensures Valid() && fresh(head) && nodes == [head] + old(nodes) && head.value == value
    {
      var node := new Node(value);
      LinkNodeHead(node);
    }

    method AddNodeTail(value: T)
      requires Valid()
      modifies this, nodes`prev, nodes`next
      ensures Valid() && fresh(tail) && nodes == old(nodes) + [tail] && tail.value == value
    {
      var node := new Node(value);
      LinkNodeTail(node);
    }

    /** Inserts a value after or before the node at position `k`. */
    method InsertNode(oldNode: Node<T>, value: T, after: bool, ghost k: nat) returns (node: Node<T>)
      requires Valid() && k < |nodes| && nodes[k] == oldNode
      modifies this, nodes`prev, nodes`next
      ensures fresh(node) && node.value == value
      ensures var at := if after then k + 1 else k;
              Valid() && nodes == old(nodes[..at]) + [node] + old(nodes[at..])
    {
      assert Linked(nodes, k);
      node := new Node(value);
      if after {
        node.prev := oldNode;
        node.next := oldNode.next;
        if tail == oldNode { tail := node; }
      } else {
        node.next := oldNode;
        node.prev := oldNode.prev;
        if head == oldNode { head := node; }
      }
      LinkBetween(node, if after then k + 1 else k);
    }

    /** The second half of listInsertNode: the neighbours learn about the new node. */
    method LinkBetween(node: Node<T>, ghost at: nat)
      requires len == |nodes| && Distinct(nodes) && at <= |nodes| && node !in nodes
      requires forall i :: 0 <= i < |nodes| ==> Linked(nodes, i)
      requires node.prev == At(nodes, at - 1) && node.next == At(nodes, at)
      requires head == (if at == 0 then node else At(nodes, 0))
      requires tail == (if at == |nodes| then node else At(nodes, |nodes| - 1))
      modifies this, nodes`prev, nodes`next
      ensures Valid() && nodes == old(nodes[..at]) + [node] + old(nodes[at..])
    {
      if node.prev != null { node.prev.next := node; }
      if node.next != null { node.next.prev := node; }
      len := len + 1;
      nodes := nodes[..at] + [node] + nodes[at..];
      forall i | 0 <= i < |nodes| ensures Linked(nodes, i) {
        if i < at { assert old(Linked(nodes, i)); } else if i > at { assert old(Linked(nodes, i - 1)); }
      }
    }

    method RotateTailToHead()
      requires Valid()
      modifies this, nodes`prev, nodes`next
      ensures Valid()
      ensures nodes == if old(len) <= 1 then old(nodes) else [old(nodes[|nodes| - 1])] + old(nodes[..|nodes| - 1])
    {
      if len <= 1 { return; }
      ghost var n := |nodes| - 1;
      assert Linked(nodes, n) && Linked(nodes, n - 1);
      var last := tail;
      tail := last.prev;
      tail.next := null;
      head.prev := last;
      last.prev := null;
      last.next := head;
      head := last;
      nodes := [nodes[n]] + nodes[..n];
      forall i | 0 <= i < |nodes| ensures Linked(nodes, i) {
        if i > 0 { assert old(Linked(nodes, i - 1)); }
      }
    }

    method RotateHeadToTail()
      requires Valid()
      modifies this, nodes`prev, nodes`next
      ensures Valid()
      ensures nodes == if old(len) <= 1 then old(nodes) else old(nodes[1..]) + [old(nodes[0])]
    {
      if len <= 1 { return; }
      assert Linked(nodes, 0) && Linked(nodes, 1);
      var first := head;
      head := first.next;
      head.prev := null;
      tail.next := first;
      first.next := null;
      first.prev := tail;
      tail := first;
      nodes := nodes[1..] + [nodes[0]];
      forall i | 0 <= i < |nodes| ensures Linked(nodes, i) {
        if i + 1 < |nodes| { assert old(Linked(nodes, i + 1)); }
      }
    }

    /** Moves all nodes of `other` to the end of this list. */
    method Join(other: List<T>)
      requires Valid() && other.Valid() && other != this
      requires forall i, j :: 0 <= i < |nodes| && 0 <= j < |other.nodes| ==> nodes[i] != other.nodes[j]
      modifies this, nodes`prev, nodes`next, other, other.nodes`prev, other.nodes`next
      ensures Valid() && nodes == old(nodes) + old(other.nodes)
      ensures other.Valid() && other.nodes == []
    {
      if other.len == 0 { return; }
      other.head.prev := tail;
      if tail != null { tail.next := other.head; } else { head := other.head; }
      tail := other.tail;
      len := len + other.len;
      ghost var a, b := nodes, other.nodes;
      nodes := a + b;
      other.head, other.tail, other.len := null, null, 0;
      other.nodes := [];
      forall i | 0 <= i < |nodes| ensures Linked(nodes, i) {
        if i < |a| { assert old(Linked(nodes, i)); } else { assert old(Linked(other.nodes, i - |a|)); }
      }
    }

    /** listEmpty: walks the whole list before dropping it. */
    method Empty()
      requires Valid()
      modifies this
      ensures Valid() && nodes == []
    {
      var current, n := head, len;
      while n > 0
        invariant n <= len && current == At(nodes, len - n)
      {
        assert Linked(nodes, len - n);
        current := current.next;
        n := n - 1;
      }
      head, tail, len, nodes := null, null, 0, [];
    }

    /** listIndex: negative positions count from the tail. */
    method Index(index: int) returns (n: Node?<T>)
      requires Valid()
      ensures n == At(nodes, if index < 0 then |nodes| + index else index)
    {
      if index < 0 {
        var i := -index - 1;
        n := tail;
        while i > 0 && n != null
          invariant i >= 0 && -index - 1 - i >= 0 && n == At(nodes, |nodes| - 1 - (-index - 1 - i))
        {
          assert Linked(nodes, |nodes| - 1 - (-index - 1 - i));
          n := n.prev;
          i := i - 1;
        }
      } else {
        var i := index;
        n := head;
        while i > 0 && n != null
          invariant 0 <= i <= index && n == At(nodes, index - i)
        {
          assert Linked(nodes, index - i);
          n := n.next;
          i := i - 1;
        }
      }
    }

    /** listSearchKey without a match callback: the first node with this value. */
    method SearchKey(key: T) returns (n: Node?<T>, ghost k: nat)
      requires Valid()
      ensures n == null <==> key !in Values()
      ensures n != null ==> k < |nodes| && n == nodes[k] && n.value == key && key !in Values()[..k]
    {
      k := 0;
      n := head;
      while n != null && n.value != key
        invariant k <= |nodes| && n == At(nodes, k) && key !in Values()[..k]
        decreases |nodes| - k
      {
        assert Linked(nodes, k);
        assert Values()[..k + 1] == Values()[..k] + [n.value];
        n := n.next;
        k := k + 1;
      }
      assert n == null ==> Values()[..k] == Values();
      assert n != null ==> Values()[k] == n.value;
    }

    /** listDup without a dup callback. */
    method Dup() returns (copy: List<T>)
      requires Valid()
      ensures fresh(copy) && fresh(copy.nodes) && copy.Valid() && copy.Values() == Values()
    {
      copy := new List<T>();
      var n := head;
      ghost var k := 0;
      while n != null
        invariant k <= |nodes| && n == At(nodes, k)
        invariant fresh(copy) && fresh(copy.nodes) && copy.Valid() && copy.Values() == Values()[..k]
        decreases |nodes| - k
      {
        assert Linked(nodes, k);
        ghost var before := copy.Values();
        copy.AddNodeTail(n.value);
        assert copy.Values() == before + [n.value];
        n := n.next;
        k := k + 1;
      }
    }
  }

  class Iter<T(==)> {
    var next: Node?<T>
    var forward: bool

    /** listRewind and listRewindTail. */
    constructor (list: List<T>, forward: bool)
      ensures next == (if forward then list.head else list.tail) && this.forward == forward
    {
      this.next := if forward then list.head else list.tail;
      this.forward := forward;
    }

    /** listNext: the iterator moves on before it hands out the node. */
    method Next() returns (current: Node?<T>)
      modifies this`next
      ensures current == old(next)
      ensures next == if current == null then null else if forward then current.next else current.prev
    {
      current := next;
      if current != null {
        next := if forward then current.next else current.prev;
      }
    }
  }

  /** The elements at positions `lo` to `hi` that are not dropped. */
  ghost function Kept<T>(s: seq<T>, lo: nat, hi: nat, drop: nat -> bool): (r: seq<T>)
    requires lo <= hi <= |s|
    decreases hi
  {
    if lo == hi then [] else Kept(s, lo, hi - 1, drop) + (if drop(hi - 1) then [] else [s[hi - 1]])
  }

  lemma {:induction false} KeptFirst<T>(s: seq<T>, lo: nat, hi: nat, drop: nat -> bool)
    requires lo < hi <= |s|
    ensures Kept(s, lo, hi, drop) == (if drop(lo) then [] else [s[lo]]) + Kept(s, lo + 1, hi, drop)
    decreases hi
  {
    if lo + 1 < hi { KeptFirst(s, lo, hi - 1, drop); }
  }

  /** The list in the middle of a walk that has been handed `i` of the nodes `ns`. */
  ghost function Walked<T>(ns: seq<T>, i: nat, drop: nat -> bool, forward: bool): (r: seq<T>)
    requires i <= |ns|
  {
    if forward then Kept(ns, 0, i, drop) + ns[i..]
    else ns[..|ns| - i] + Kept(ns, |ns| - i, |ns|, drop)
  }

  /** The node handed out at step `i` is still in place, and its removal is one step of the walk. */
  lemma WalkStep<T>(ns: seq<T>, i: nat, drop: nat -> bool, forward: bool)
    requires i < |ns|
    ensures var l := Walked(ns, i, drop, forward);
            var at := if forward then i else |ns| - 1 - i;
            var k := if forward then |Kept(ns, 0, i, drop)| else |ns| - 1 - i;
            && k < |l| && l[k] == ns[at]
            && (if forward then |l| - k == |ns| - i && (i + 1 < |ns| ==> l[k + 1] == ns[i + 1])
                else k > 0 ==> l[k - 1] == ns[at - 1])
            && Walked(ns, i + 1, drop, forward) == if drop(at) then l[..k] + l[k + 1..] else l
  {
    if forward {
      assert ns[i..] == [ns[i]] + ns[i + 1..];
    } else {
      var at := |ns| - 1 - i;
      assert ns[..at + 1] == ns[..at] + [ns[at]];
      KeptFirst(ns, at, |ns|, drop);
    }
  }

  ghost predicate Among<T>(ms: seq<Node<T>>, ns: seq<Node<T>>) { forall i :: 0 <= i < |ms| ==> ms[i] in ns }

  method Visit<T>(list: List<T>, node: Node<T>, delete: bool,
                  ghost ns: seq<Node<T>>, ghost i: nat, ghost drop: nat -> bool, ghost forward: bool)
    requires list.Valid() && i < |ns| && list.nodes == Walked(ns, i, drop, forward) && Among(list.nodes, ns)
    requires var at := if forward then i else |ns| - 1 - i; node == ns[at] && delete == drop(at)
    modifies list, ns`prev, ns`next
    ensures list.Valid() && list.nodes == Walked(ns, i + 1, drop, forward) && Among(list.nodes, ns)
  {
    hide Kept, Walked, List.Valid, Linked;
    WalkStep(ns, i, drop, forward);
    ghost var k := if forward then |Kept(ns, 0, i, drop)| else |ns| - 1 - i;
    AmongRemove(list.nodes, ns, k);
    if delete { list.UnlinkNode(node, k); }
  }

  lemma AmongRemove<T>(ms: seq<Node<T>>, ns: seq<Node<T>>, k: nat)
    requires Among(ms, ns) && k < |ms|
    ensures Among(ms[..k] + ms[k + 1..], ns)
  {}

  /**
   * The usual loop over a list, deleting any of the nodes it is handed. Every node of the
   * original list is visited exactly once, in order, and exactly the chosen ones are gone.
   */
  method Walk<T>(list: List<T>, forward: bool, drop: nat -> bool) returns (visited: seq<Node<T>>)
    requires list.Valid()
    modifies list, list.nodes`prev, list.nodes`next
    ensures visited == if forward then old(list.nodes) else Reversed(old(list.nodes))
    ensures list.Valid() && list.nodes == Kept(old(list.nodes), 0, |old(list.nodes)|, drop)
  {
    hide Kept, Walked, List.Valid, Linked;
    ghost var ns := list.nodes;
    var n := list.Length();
    var iter := new Iter(list, forward);
    visited := [];
    KeptNone(ns, drop);
    if n > 0 { NextInWalk(list, ns, 0, drop, forward); }
    var node := iter.Next();
    while node != null
      invariant |visited| <= |ns| && n == |ns| && iter.forward == forward && fresh(iter)
      invariant list.Valid() && list.nodes == Walked(ns, |visited|, drop, forward)
      invariant Among(list.nodes, ns)
      invariant forall i :: 0 <= i < |visited| ==> visited[i] == ns[if forward then i else |ns| - 1 - i]
      invariant var i := |visited|;
                && node == At(ns, if forward then i else |ns| - 1 - i)
                && (node != null ==> iter.next == At(ns, if forward then i + 1 else |ns| - 2 - i))
      decreases |ns| - |visited|
    {
      var i := |visited|;
      Visit(list, node, drop(if forward then i else n - 1 - i), ns, i, drop, forward);
      visited := visited + [node];
      if i + 1 < n { NextInWalk(list, ns, i + 1, drop, forward); }
      node := iter.Next();
    }
  }

  /** Where the iterator goes from the node handed out at step `i`. */
  lemma NextInWalk<T>(list: List<T>, ns: seq<Node<T>>, i: nat, drop: nat -> bool, forward: bool)
    requires list.Valid() && i < |ns| && list.nodes == Walked(ns, i, drop, forward)
    ensures if forward then ns[i].next == At(ns, i + 1) else ns[|ns| - 1 - i].prev == At(ns, |ns| - 2 - i)
  {
    hide Kept, Walked;
    WalkStep(ns, i, drop, forward);
    var k := if forward then |Kept(ns, 0, i, drop)| else |ns| - 1 - i;
    assert Linked(list.nodes, k);
  }

  lemma KeptNone<T>(ns: seq<T>, drop: nat -> bool)
    ensures Walked(ns, 0, drop, true) == ns && Walked(ns, 0, drop, false) == ns
    ensures Walked(ns, |ns|, drop, true) == Walked(ns, |ns|, drop, false) == Kept(ns, 0, |ns|, drop)
  {}
}
