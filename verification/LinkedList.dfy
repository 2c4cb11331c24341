/** lib/list/llist.c: a doubly linked list of caller-owned nodes. */
module LinkedList {

  class ListNode<T> {
    var prev: ListNode?<T>
    var next: ListNode?<T>
    const val: T

    constructor (val: T)
      ensures this.val == val && prev == null && next == null
    {
      this.val := val;
      prev, next := null, null;
    }
  }

  /** The sequence without `x`, which occurs at most once. */
  ghost function Without<X>(s: seq<X>, x: X): seq<X> {
    if s == [] then [] else if s[0] == x then s[1..] else [s[0]] + Without(s[1..], x)
  }

  lemma {:induction false} WithoutAt<X>(s: seq<X>, k: nat)
    requires k < |s| && s[k] !in s[..k]
    ensures Without(s, s[k]) == s[..k] + s[k + 1..]
    decreases s
  {
    if k > 0 {
      assert s[0] == s[..k][0];
      assert s[1..][..k - 1] == s[..k][1..];
      WithoutAt(s[1..], k - 1);
    }
  }

  lemma {:induction false} WithoutAbsent<X>(s: seq<X>, x: X)
    requires x !in s
    ensures Without(s, x) == s
    decreases s
  {
    if s != [] {
      WithoutAbsent(s[1..], x);
    }
  }

  /** Where `x` is in `s`, or the length of `s`. */
  ghost function Position<X>(s: seq<X>, x: X): (k: nat)
    requires forall i, j :: 0 <= i < j < |s| ==> s[i] != s[j]
    ensures k <= |s| && (k < |s| <==> x in s) && (k < |s| ==> s[k] == x)
    ensures Without(s, x) == if k < |s| then s[..k] + s[k + 1..] else s
  {
    if x in s then
      var k :| 0 <= k < |s| && s[k] == x;
      WithoutAt(s, k);
      k
    else
      WithoutAbsent(s, x);
      |s|
  }

  /** `nodes` are linked in this order, without repetition. */
  ghost predicate Chain<T>(nodes: seq<ListNode<T>>)
    reads nodes
  {
    && (forall i, j :: 0 <= i < j < |nodes| ==> nodes[i] != nodes[j])
    && (forall i {:trigger nodes[i].prev} :: 0 <= i < |nodes| ==>
          nodes[i].prev == if i == 0 then null else nodes[i - 1])
    && (forall i {:trigger nodes[i].next} :: 0 <= i < |nodes| ==>
          nodes[i].next == if i == |nodes| - 1 then null else nodes[i + 1])
  }

  class List<T> {
    var head: ListNode?<T>
    var tail: ListNode?<T>
    var len: nat
    ghost var nodes: seq<ListNode<T>>

    ghost predicate Valid()
      reads this, nodes
    {
      && Chain(nodes) && len == |nodes|
      && head == (if nodes == [] then null else nodes[0])
      && tail == (if nodes == [] then null else nodes[|nodes| - 1])
    }

    constructor ()
      ensures Valid() && nodes == []
    {
      head, tail, len, nodes := null, null, 0, [];
    }

    /** `list_remove_internal`: unlinks the node if it is in the list; a node that
        is in no list has both links NULL and is left alone. */
    method RemoveInternal(node: ListNode?<T>)
      requires Valid()
      requires node != null && node !in nodes ==> node.prev == null && node.next == null
      modifies this, nodes, (if node == null then {} else {node})
      ensures Valid()
      ensures node == null ==> nodes == old(nodes)
      ensures node != null ==> nodes == Without<ListNode<T>>(old(nodes), node) && node.prev == null && node.next == null
    {
      hide Without;
      ghost var k := if node == null then 0 else Position<ListNode<T>>(nodes, node);
      if node == null || (head == null && tail == null) {
        return;
      }
      var a, c := node.prev, node.next;
      var removed := Bypass(node, a, c, k);
      hide Chain;
      if removed {
        len := len - 1;
      }
    }

    /** Links the neighbours `a` and `c` of `node` to each other. */
    method Bypass(node: ListNode<T>, a: ListNode?<T>, c: ListNode?<T>, ghost k: nat) returns (removed: bool)
      requires Valid() && nodes != [] && a == node.prev && c == node.next
      requires k < |nodes| ==> nodes[k] == node
      requires k < |nodes| ==> a == (if k == 0 then null else nodes[k - 1])
      requires k < |nodes| ==> c == (if k == |nodes| - 1 then null else nodes[k + 1])
      requires k >= |nodes| ==> k == |nodes| && node !in nodes && a == null && c == null
      modifies this`head, this`tail, this`nodes, node
      modifies (if a == null then {} else {a})`next, (if c == null then {} else {c})`prev
      ensures (removed <==> k < old(|nodes|)) && |nodes| == old(|nodes|) - if removed then 1 else 0
      ensures nodes == if removed then old(nodes)[..k] + old(nodes)[k + 1..] else old(nodes)
      ensures Chain(nodes) && node.prev == null && node.next == null
      ensures head == if nodes == [] then null else nodes[0]
      ensures tail == if nodes == [] then null else nodes[|nodes| - 1]
    {
      removed := false;
      if a != null {
        a.next := c;
        removed := true;
      }
      if c != null {
        c.prev := a;
        removed := true;
      }
      if head != null && head == node {
        head := c;
        removed := true;
      }
      if tail != null && tail == node {
        tail := a;
        removed := true;
      }
      node.prev, node.next := null, null;
      if removed {
        ghost var s := nodes;
        nodes := s[..k] + s[k + 1..];
        ChainWithout(s, k, nodes);
        EndsWithout(s, k, nodes);
        hide Chain;
      }
    }

    /** `list_lpush`: the node becomes the first one, wherever it was before. */
    method LPush(node: ListNode<T>)
      requires Valid()
      requires node !in nodes ==> node.prev == null && node.next == null
      modifies this, nodes, node
      ensures Valid() && nodes == [node] + Without(old(nodes), node)
    {
      NotInWithout(nodes, node);
      RemoveInternal(node);
      ghost var s := nodes;
      label unlinked:
      if len != 0 {
        node.next := head;
        node.prev := null;
        head.prev := node;
        head := node;
      } else {
        head, tail := node, node;
        node.prev, node.next := null, null;
      }
      len := len + 1;
      nodes := [node] + s;
      ChainPush@unlinked(s, node);
      hide Chain;
    }

    /** `list_rpop`: detaches the last node, if there is one. */
    method RPop() returns (node: ListNode?<T>)
      requires Valid()
      modifies this, nodes
      ensures Valid()
      ensures old(nodes) == [] ==> node == null && nodes == []
      ensures old(nodes) != [] ==>
                node == old(nodes)[|old(nodes)| - 1] && nodes == old(nodes)[..|old(nodes)| - 1]
      ensures node != null ==> node.prev == null && node.next == null
    {
      if len == 0 {
        return null;
      }
      node := tail;
      len := len - 1;
      assert nodes[len].prev == if len == 0 then null else nodes[len - 1];
      if len != 0 {
        tail := node.prev;
        tail.next := null;
      } else {
        tail, head := null, null;
      }
      node.next, node.prev := null, null;
      nodes := nodes[..len];
    }

    /** `list_at`: counts from the head, or from the tail if `index` is negative. */
    method At(index: int) returns (node: ListNode?<T>)
      requires Valid()
      ensures node == if 0 <= index < |nodes| then nodes[index]
                      else if -|nodes| <= index < 0 then nodes[|nodes| + index] else null
    {
      var fromHead := index >= 0;
      var i := if fromHead then index else -index - 1;
      if i >= len {
        return null;
      }
      node := if fromHead then head else tail;
      var k := 0;
      while k < i
        invariant 0 <= k <= i < len && node == nodes[if fromHead then k else |nodes| - 1 - k]
        decreases i - k
      {
        ghost var j := if fromHead then k else |nodes| - 1 - k;
        assert fromHead ==> nodes[j].next == nodes[j + 1];
        assert !fromHead ==> nodes[j].prev == nodes[j - 1];
        node := if fromHead then node.next else node.prev;
        k := k + 1;
      }
    }

    /** `list_remove`; the node's memory is freed by the caller's heap. */
    method Remove(node: ListNode?<T>)
      requires Valid()
      requires node != null && node !in nodes ==> node.prev == null && node.next == null
      modifies this, nodes, (if node == null then {} else {node})
      ensures Valid()
      ensures nodes == if node == null then old(nodes) else Without<ListNode<T>>(old(nodes), node)
    {
      RemoveInternal(node);
    }
  }

  lemma {:induction false} NotInWithout<X>(s: seq<X>, x: X)
    requires forall i, j :: 0 <= i < j < |s| ==> s[i] != s[j]
    ensures x !in Without(s, x) && forall y :: y in s <==> y in Without(s, x) || (y == x && x in s)
    ensures |Without(s, x)| == |s| - if x in s then 1 else 0
    decreases s
  {
    if s != [] {
      assert forall y :: y in s <==> y == s[0] || y in s[1..];
      if s[0] != x {
        NotInWithout(s[1..], x);
        assert forall y :: y in Without(s, x) <==> y == s[0] || y in Without(s[1..], x);
      }
    }
  }

  lemma EndsWithout<X>(s: seq<X>, k: nat, r: seq<X>)
    requires k < |s| && r == s[..k] + s[k + 1..]
    ensures r == [] <==> |s| == 1
    ensures r != [] ==> r[0] == (if k == 0 then s[1] else s[0])
    ensures r != [] ==> r[|r| - 1] == if k == |s| - 1 then s[k - 1] else s[|s| - 1]
  {
  }

  /** A node linked in front of a chain. */
  twostate lemma ChainPush<T>(new s: seq<ListNode<T>>, new node: ListNode<T>)
    requires old(allocated(s)) && old(Chain(s)) && node !in s
    requires node.prev == null && node.next == if s == [] then null else s[0]
    requires s != [] ==> s[0].prev == node
    requires forall i {:trigger s[i].prev} :: 1 <= i < |s| ==> s[i].prev == old(s[i].prev)
    requires forall i {:trigger s[i].next} :: 0 <= i < |s| ==> s[i].next == old(s[i].next)
    ensures Chain([node] + s)
  {
    var r := [node] + s;
    forall i | 0 <= i < |r|
      ensures r[i].prev == if i == 0 then null else r[i - 1]
      ensures r[i].next == if i == |r| - 1 then null else r[i + 1]
    {
      if i > 0 {
        assert r[i] == s[i - 1];
        assert old(s[i - 1].prev) == if i == 1 then null else s[i - 2];
        assert old(s[i - 1].next) == if i == |s| then null else s[i];
      }
    }
  }

  lemma IndexWithout<X>(s: seq<X>, k: nat, r: seq<X>)
    requires k < |s| && r == s[..k] + s[k + 1..]
    ensures forall i :: 0 <= i < |r| ==> r[i] == s[if i < k then i else i + 1]
  {
  }

  /** The neighbours of `k` are linked to each other, and all other links are right. */
  lemma ChainWithout<T>(s: seq<ListNode<T>>, k: nat, r: seq<ListNode<T>>)
    requires k < |s| && r == s[..k] + s[k + 1..] && forall i, j :: 0 <= i < j < |s| ==> s[i] != s[j]
    requires forall i {:trigger s[i].prev} :: 0 <= i < |s| && i != k && i != k + 1 ==>
               s[i].prev == if i == 0 then null else s[i - 1]
    requires forall i {:trigger s[i].next} :: 0 <= i < |s| && i != k && i != k - 1 ==>
               s[i].next == if i == |s| - 1 then null else s[i + 1]
    requires k > 0 ==> s[k - 1].next == if k == |s| - 1 then null else s[k + 1]
    requires k < |s| - 1 ==> s[k + 1].prev == if k == 0 then null else s[k - 1]
    ensures Chain(r)
  {
    DistinctWithout(s, k, r);
    forall i | 0 <= i < |r| ensures r[i].prev == if i == 0 then null else r[i - 1] {
      var j := if i < k then i else i + 1;
      IndexWithout(s, k, r);
      assert j != k + 1 ==> s[j].prev == if j == 0 then null else s[j - 1];
    }
    forall i | 0 <= i < |r| ensures r[i].next == if i == |r| - 1 then null else r[i + 1] {
      var j := if i < k then i else i + 1;
      IndexWithout(s, k, r);
      assert j != k - 1 ==> s[j].next == if j == |s| - 1 then null else s[j + 1];
    }
  }

  lemma DistinctWithout<X>(s: seq<X>, k: nat, r: seq<X>)
    requires k < |s| && r == s[..k] + s[k + 1..] && forall i, j :: 0 <= i < j < |s| ==> s[i] != s[j]
    ensures forall i, j :: 0 <= i < j < |r| ==> r[i] != r[j]
  {
    IndexWithout(s, k, r);
  }
}
