/** lib/lru_cache: an index from keys to items whose nodes form a list, most
    recently moved first. The caller's `on_flush` runs between the lookup and
    the unlinking of an item, so `lru_cache_remove` comes in two halves here, `Find`
    and `Unlink`, and `lru_cache_flush_items` lists what it was called with. */
module LruCache {
  import opened Options
  import opened LinkedList
  import opened MemoryIndexer

  const LRU_MARKING := 100

  class CacheItem<V> {
    const key: nat
    const value: V
    var node: ListNode?<CacheItem<V>>
    var access: nat

    constructor (key: nat, value: V)
      ensures this.key == key && this.value == value && access == 0
    {
      this.key, this.value, node, access := key, value, null, 0;
    }
  }

  ghost function Vals<V>(nodes: seq<ListNode<CacheItem<V>>>): set<CacheItem<V>> {
    set n | n in nodes :: n.val
  }

  ghost function NodeSet<V>(nodes: seq<ListNode<CacheItem<V>>>): set<ListNode<CacheItem<V>>> {
    set n | n in nodes
  }

  ghost function Keys<V>(nodes: seq<ListNode<CacheItem<V>>>): seq<nat> {
    seq(|nodes|, i requires 0 <= i < |nodes| => nodes[i].val.key)
  }

  /** The list and the index hold the same items, one per key. */
  ghost predicate Indexed<V>(nodes: seq<ListNode<CacheItem<V>>>, items: map<nat, CacheItem<V>>)
    reads Vals(nodes)`node
  {
    && (forall n :: n in nodes ==> n.val.node == n && n.val.key in items && items[n.val.key] == n.val)
    && (forall k :: k in items ==> items[k].key == k && items[k] in Vals(nodes))
  }

  ghost function ValuesOf<V>(items: map<nat, CacheItem<V>>): map<nat, V> {
    map k | k in items :: items[k].value
  }

  class Lru<V> {
    const list: List<CacheItem<V>>
    const index: Indexer<CacheItem<V>>
    var numberOfItems: nat
    /** The cached values. */
    ghost var contents: map<nat, V>
    ghost var repr: set<object>

    /** The objects of the list side; the index side is `index.repr`. */
    ghost function Own(): set<object>
      reads this, list
    {
      {this, list} + NodeSet(list.nodes) + Vals(list.nodes)
    }

    /** The list holds exactly `items`; the index is a tree of its own. */
    ghost predicate Holds(items: map<nat, CacheItem<V>>)
      reads this, repr
    {
      && {this, list, index} <= repr && Own() <= repr && index.repr <= repr && Own() !! index.repr
      && list.Valid() && index.Valid() && Indexed(list.nodes, items)
    }

    ghost predicate Valid()
      reads this, repr
      ensures Valid() ==> {this, list, index} <= repr && |Order()| == numberOfItems
    {
      && index in repr && Holds(index.contents) && numberOfItems == |list.nodes| && contents == ValuesOf(index.contents)
    }

    /** The keys, the most recently moved first. */
    ghost function Order(): seq<nat>
      reads this, list
    {
      Keys(list.nodes)
    }

    constructor ()
      ensures Valid() && fresh(repr) && contents == map[] && Order() == [] && numberOfItems == 0
    {
      list := new List();
      index := new Indexer();
      numberOfItems := 0;
      contents := map[];
      new;
      repr := {this, list} + index.repr;
    }

    /** Walking the list from its head visits every cached value exactly once. */
    lemma ListWalk()
      requires Valid()
      ensures Chain(list.nodes) && list.head == (if list.nodes == [] then null else list.nodes[0])
      ensures forall n :: n in list.nodes ==> n in repr && n.val.key in contents && contents[n.val.key] == n.val.value
      ensures forall k :: k in contents ==> exists n :: n in list.nodes && n.val.key == k
    {
      forall k | k in contents ensures exists n :: n in list.nodes && n.val.key == k {
        assert index.contents[k] in Vals(list.nodes);
      }
    }

    /** Each cached key is on exactly one node, and the count is the number of keys. */
    lemma Bijection()
      requires Valid()
      ensures |contents| == numberOfItems == |Order()|
      ensures forall k :: k in contents <==> k in Order()
      ensures forall i, j :: 0 <= i < j < |Order()| ==> Order()[i] != Order()[j]
    {
      KeysApart(list.nodes, index.contents);
      forall k | k in contents ensures k in Order() {
        var n :| n in list.nodes && n.val == index.contents[k];
        var i :| 0 <= i < |list.nodes| && list.nodes[i] == n;
        assert Order()[i] == k;
      }
      forall k | k in Order() ensures k in contents {
        var i :| 0 <= i < |Order()| && Order()[i] == k;
        assert list.nodes[i] in list.nodes;
      }
      assert contents.Keys == SetOf(Order());
      DistinctCount(Order());
    }

    /** The first half of `lru_cache_remove`: the item to be flushed, if any. */
    method Find(key: nat) returns (r: Option<CacheItem<V>>)
      requires Valid()
      ensures Valid()
      ensures r.None? <==> key !in contents
      ensures r.Some? ==> r.value.key == key && r.value.value == contents[key] && r.value in Vals(list.nodes)
    {
      r := index.Search(key);
    }

    method Get(key: nat) returns (r: Option<V>)
      requires Valid()
      modifies repr
      ensures Valid() && repr == old(repr) && contents == old(contents)
      ensures numberOfItems == old(numberOfItems)
      ensures r == if key in contents then Some(contents[key]) else None
      ensures Order() == old(Order()) || (key in contents && Order() == [key] + Without(old(Order()), key))
      ensures index.contents == old(index.contents) && contents.Keys == index.contents.Keys
      ensures key in contents ==>
                var item := index.contents[key];
                && item.access == old(item.access) + 1
                && Order() == if item.access % 100 == 0 then [key] + Without(old(Order()), key) else old(Order())
    {
      hide Indexer.Valid;
      var found := index.Search(key);
      if found.None? {
        return None;
      }
      var item := found.value;
      Bump(item);
      if item.access % LRU_MARKING == 0 {
        ToFront(item);
      }
      return Some(item.value);
    }

    method Bump(item: CacheItem<V>)
      requires Valid() && item in Vals(list.nodes)
      modifies item`access
      ensures Valid() && item.access == old(item.access) + 1
    {
      hide Indexer.Valid;
      assert allocated(index.repr) && allocated(NodeSet(list.nodes));
      item.access := item.access + 1;
    }

    method ToFront(item: CacheItem<V>)
      requires Valid() && item.node != null && item.node in list.nodes && item.node.val == item
      modifies list, list.nodes
      ensures Valid() && Order() == [item.key] + Without(old(Order()), item.key)
    {
      hide Indexer.Valid;
      assert allocated(index.repr);
      MoveNode(list, item.node, index.contents);
    }

    /** `lru_cache_get_least_recently_used`: the value at the tail of the list. */
    method GetLeastRecentlyUsed() returns (r: Option<V>)
      requires Valid()
      ensures Order() == [] ==> r.None?
      ensures Order() != [] ==>
                var k := Order()[|Order()| - 1]; k in contents && r == Some(contents[k])
    {
      var last := list.At(-1);
      if last != null {
        assert last in list.nodes;
        return Some(last.val.value);
      }
      return None;
    }

    /** The second half of `lru_cache_remove`, after the flush. */
    method Unlink(item: CacheItem<V>)
      requires Valid() && item in Vals(list.nodes)
      modifies repr
      ensures Valid() && repr == old(repr)
      ensures contents == old(contents) - {item.key} && Order() == Without(old(Order()), item.key)
      ensures numberOfItems == old(numberOfItems) - 1
    {
      hide Indexer.Valid;
      hide List.Valid;
      hide Indexed;
      UnlinkNode(item);
      Forget(item.key);
    }

    method Add(key: nat, value: V)
      requires Valid() && key !in contents
      modifies repr
      ensures Valid() && fresh(repr - old(repr))
      ensures contents == old(contents)[key := value] && Order() == [key] + old(Order())
      ensures numberOfItems == old(numberOfItems) + 1
    {
      hide Indexer.Valid;
      hide List.Valid;
      hide Indexed;
      assert allocated(repr);
      var item := new CacheItem(key, value);
      var node := new ListNode(item);
      item.node := node;
      SetIndex(item, node);
      PushItem(item, node);
      ValuesWith(old(index.contents), item);
    }

    /** The first half of `lru_cache_add`: the item enters the index. */
    method SetIndex(item: CacheItem<V>, node: ListNode<CacheItem<V>>)
      requires Holds(index.contents) && item.key !in index.contents && item !in repr && node !in repr
      requires item.node == node && node.val == item
      modifies index.repr, this`repr
      ensures Own() + {item, node} <= repr && index.repr <= repr && index in repr && Own() + {item, node} !! index.repr
      ensures forall o :: o in repr ==> o in old(repr) || o == item || o == node || fresh(o)
      ensures list.Valid() && index.Valid() && index.contents == old(index.contents)[item.key := item]
      ensures Indexed([node] + list.nodes, index.contents)
    {
      hide Indexer.Valid;
      hide List.Valid;
      assert allocated(NodeSet(list.nodes)) && allocated(Vals(list.nodes)) && allocated(index.repr);
      IndexedCons(node, list.nodes, index.contents);
      hide Indexed;
      index.Set(item.key, item);
      repr := repr + {item, node} + index.repr;
    }

    /** The second half of `lru_cache_add`: its node becomes the first of the list. */
    method PushItem(item: CacheItem<V>, node: ListNode<CacheItem<V>>)
      requires Own() + {item, node} <= repr && index.repr <= repr && index in repr && Own() + {item, node} !! index.repr
      requires list.Valid() && index.Valid() && Indexed([node] + list.nodes, index.contents)
      requires node !in list.nodes && node.val == item && node.prev == null && node.next == null
      requires numberOfItems == |list.nodes|
      modifies list, list.nodes, node, this`numberOfItems, this`contents
      ensures Valid() && contents == ValuesOf(index.contents) && Order() == [item.key] + old(Order())
      ensures numberOfItems == old(numberOfItems) + 1
    {
      hide Indexer.Valid;
      hide Indexed;
      hide List.Valid;
      assert allocated(index.repr);
      PushNode(list, node, index.contents);
      numberOfItems := numberOfItems + 1;
      contents := ValuesOf(index.contents);
    }

    /** One turn of the loop in `lru_cache_flush_items`: the item at the tail
        leaves the list and the index. */
    method FlushLast() returns (item: Option<CacheItem<V>>)
      requires Valid()
      modifies repr
      ensures Valid() && repr == old(repr)
      ensures old(Order()) == [] ==> item.None? && Order() == [] && contents == old(contents)
      ensures old(Order()) != [] ==>
                var k := old(Order())[|old(Order())| - 1];
                && item.Some? && item.value.key == k && k in old(contents) && item.value.value == old(contents)[k]
                && Order() == old(Order())[..|old(Order())| - 1] && contents == old(contents) - {k}
                && numberOfItems == old(numberOfItems) - 1
    {
      hide Indexer.Valid;
      hide List.Valid;
      hide Indexed;
      item := PopNode();
      if item.Some? {
        Forget(item.value.key);
      }
    }

    method PopNode() returns (item: Option<CacheItem<V>>)
      requires Holds(index.contents) && contents == ValuesOf(index.contents)
      modifies list, list.nodes, Vals(list.nodes)`node
      ensures old(list.nodes) == [] ==> item.None? && list.nodes == [] && Holds(index.contents)
      ensures old(list.nodes) != [] ==>
                && item.Some? && item.value.key == old(Order())[|old(list.nodes)| - 1]
                && item.value.key in contents && contents[item.value.key] == item.value.value
                && Holds(index.contents - {item.value.key}) && |list.nodes| == old(|list.nodes|) - 1
                && Order() == old(Order())[..|list.nodes|]
    {
      hide Indexer.Valid;
      hide List.Valid;
      assert allocated(index.repr);
      LastKey(list.nodes, index.contents);
      hide Indexed;
      var last := DropLast(list, index.contents);
      if last == null {
        return None;
      }
      assert allocated(NodeSet(list.nodes)) && allocated(Vals(list.nodes));
      last.val.node := null;
      item := Some(last.val);
    }

    /** `lru_cache_flush_items`: as many items as asked for, or all of them, from
        the tail; `flushed` is what `on_flush` was called with, in turn. */
    method FlushItems(numberOfItemsToFlush: nat) returns (flushed: seq<(nat, V)>)
      requires Valid()
      modifies repr
      ensures Valid() && repr == old(repr)
      ensures |flushed| == if numberOfItemsToFlush < |old(Order())| then numberOfItemsToFlush else |old(Order())|
      ensures Order() == old(Order())[..|old(Order())| - |flushed|] && contents == old(contents) - KeysOf(flushed)
      ensures forall i :: 0 <= i < |flushed| ==>
                && flushed[i].0 == old(Order())[|old(Order())| - 1 - i]
                && flushed[i].0 in old(contents) && flushed[i].1 == old(contents)[flushed[i].0]
    {
      hide Valid;
      hide Order;
      hide KeysOf;
      flushed := [];
      assert contents - KeysOf(flushed) == contents by { assert KeysOf<V>([]) == {} by { NoKeys<V>(); } }
      while |flushed| < numberOfItemsToFlush
        invariant Valid() && repr == old(repr) && |flushed| <= |old(Order())| && |flushed| <= numberOfItemsToFlush
        invariant Order() == old(Order())[..|old(Order())| - |flushed|] && contents == old(contents) - KeysOf(flushed)
        invariant forall i :: 0 <= i < |flushed| ==>
                    && flushed[i].0 == old(Order())[|old(Order())| - 1 - i]
                    && flushed[i].0 in old(contents) && flushed[i].1 == old(contents)[flushed[i].0]
      {
        var item := FlushLast();
        if item.None? {
          return;
        }
        KeysOfMore(flushed, (item.value.key, item.value.value));
        flushed := flushed + [(item.value.key, item.value.value)];
      }
    }

    method UnlinkNode(item: CacheItem<V>)
      requires Holds(index.contents) && item in Vals(list.nodes)
      modifies list, list.nodes, item`node
      ensures Holds(index.contents - {item.key}) && |list.nodes| == old(|list.nodes|) - 1
      ensures Order() == Without(old(Order()), item.key)
    {
      hide Indexer.Valid;
      assert allocated(index.repr);
      DropNode(list, item.node, index.contents);
      assert allocated(NodeSet(list.nodes)) && allocated(Vals(list.nodes));
      item.node := null;
    }

    method Forget(key: nat)
      requires Holds(index.contents - {key}) && contents == ValuesOf(index.contents)
      requires numberOfItems == |list.nodes| + 1
      modifies index.repr, this`contents, this`numberOfItems
      ensures Valid() && contents == old(contents) - {key} && numberOfItems == old(numberOfItems) - 1
    {
      hide Indexer.Valid;
      hide List.Valid;
      hide Indexed;
      assert allocated(NodeSet(list.nodes)) && allocated(Vals(list.nodes));
      index.Remove(key);
      numberOfItems := numberOfItems - 1;
      contents := ValuesOf(index.contents);
    }
  }

  lemma LastMembers<V>(s: seq<ListNode<CacheItem<V>>>, r: seq<ListNode<CacheItem<V>>>, items: map<nat, CacheItem<V>>)
    requires Indexed(s, items) && Chain(s) && s != [] && r == s[..|s| - 1]
    ensures var n := s[|s| - 1];
            Vals(r) == Vals(s) - {n.val} && NodeSet(r) == NodeSet(s) - {n} && Indexed(r, items - {n.val.key})
    ensures Keys(r) == Keys(s)[..|s| - 1]
  {
    WithoutAt(s, |s| - 1);
    assert s[..|s| - 1] + s[|s|..] == r;
    DroppedMembers(s, s[|s| - 1], r, items);
  }

  lemma LastKey<V>(s: seq<ListNode<CacheItem<V>>>, items: map<nat, CacheItem<V>>)
    requires Indexed(s, items)
    ensures s != [] ==> var item := s[|s| - 1].val;
            item.key in items && items[item.key] == item && item.key == Keys(s)[|s| - 1] && item in Vals(s)
  {
    assert s != [] ==> s[|s| - 1] in s;
  }

  /** `list_rpop`: the last node leaves the list. */
  method DropLast<V>(list: List<CacheItem<V>>, ghost items: map<nat, CacheItem<V>>) returns (n: ListNode?<CacheItem<V>>)
    requires list.Valid() && Indexed(list.nodes, items)
    modifies list, list.nodes
    ensures list.Valid() && (old(list.nodes) == [] ==> n == null && list.nodes == [])
    ensures old(list.nodes) != [] ==>
              && n == old(list.nodes)[|old(list.nodes)| - 1] && |list.nodes| == old(|list.nodes|) - 1
              && Indexed(list.nodes, items - {n.val.key})
              && NodeSet(list.nodes) == old(NodeSet(list.nodes)) - {n}
              && Vals(list.nodes) == old(Vals(list.nodes)) - {n.val}
              && Keys(list.nodes) == old(Keys(list.nodes))[..|list.nodes|]
  {
    if list.nodes != [] {
      LastMembers(list.nodes, list.nodes[..|list.nodes| - 1], items);
    }
    n := list.RPop();
  }

  ghost function KeysOf<V>(flushed: seq<(nat, V)>): set<nat> {
    set i | 0 <= i < |flushed| :: flushed[i].0
  }

  lemma NoKeys<V>()
    ensures KeysOf<V>([]) == {}
  {
  }

  lemma KeysOfMore<V>(flushed: seq<(nat, V)>, p: (nat, V))
    ensures KeysOf(flushed + [p]) == KeysOf(flushed) + {p.0}
  {
    var s := flushed + [p];
    assert s[|flushed|] == p;
    assert forall i :: 0 <= i < |flushed| ==> s[i] == flushed[i];
  }

  lemma IndexedCons<V>(n: ListNode<CacheItem<V>>, s: seq<ListNode<CacheItem<V>>>, items: map<nat, CacheItem<V>>)
    requires Indexed(s, items) && n.val.node == n && n.val.key !in items
    ensures Indexed([n] + s, items[n.val.key := n.val])
  {
    var r, m := [n] + s, items[n.val.key := n.val];
    assert n in r && forall x :: x in s ==> x in r;
    assert forall x :: x in r ==> x == n || x in s;
    forall k | k in m ensures m[k].key == k && m[k] in Vals(r) {
    }
  }

  lemma ValuesWith<V>(items: map<nat, CacheItem<V>>, item: CacheItem<V>)
    ensures ValuesOf(items[item.key := item]) == ValuesOf(items)[item.key := item.value]
  {
  }

  /** `list_lpush` of a new node. */
  method PushNode<V>(list: List<CacheItem<V>>, n: ListNode<CacheItem<V>>, ghost items: map<nat, CacheItem<V>>)
    requires list.Valid() && n !in list.nodes && n.prev == null && n.next == null
    requires Indexed([n] + list.nodes, items)
    modifies list, list.nodes, n
    ensures list.Valid() && Indexed(list.nodes, items) && list.nodes == [n] + old(list.nodes)
    ensures Keys(list.nodes) == [n.val.key] + old(Keys(list.nodes))
    ensures NodeSet(list.nodes) == old(NodeSet(list.nodes)) + {n}
    ensures Vals(list.nodes) == old(Vals(list.nodes)) + {n.val}
  {
    WithoutAbsent(list.nodes, n);
    KeysCons(n, list.nodes);
    list.LPush(n);
  }

  /** `list_remove` of a node that is in the list. */
  method DropNode<V>(list: List<CacheItem<V>>, n: ListNode<CacheItem<V>>, ghost items: map<nat, CacheItem<V>>)
    requires list.Valid() && n in list.nodes && Indexed(list.nodes, items)
    modifies list, list.nodes
    ensures list.Valid() && Indexed(list.nodes, items - {n.val.key}) && |list.nodes| == old(|list.nodes|) - 1
    ensures NodeSet(list.nodes) == old(NodeSet(list.nodes)) - {n}
    ensures Vals(list.nodes) == old(Vals(list.nodes)) - {n.val}
    ensures Keys(list.nodes) == Without(old(Keys(list.nodes)), n.val.key)
  {
    DroppedMembers(list.nodes, n, Without(list.nodes, n), items);
    list.Remove(n);
  }

  /** `list_lpush` of a node that is in the list already. */
  method MoveNode<V>(list: List<CacheItem<V>>, n: ListNode<CacheItem<V>>, ghost items: map<nat, CacheItem<V>>)
    requires list.Valid() && n in list.nodes && Indexed(list.nodes, items)
    modifies list, list.nodes
    ensures list.Valid() && Indexed(list.nodes, items) && |list.nodes| == old(|list.nodes|)
    ensures NodeSet(list.nodes) == old(NodeSet(list.nodes)) && Vals(list.nodes) == old(Vals(list.nodes))
    ensures Keys(list.nodes) == [n.val.key] + Without(old(Keys(list.nodes)), n.val.key)
  {
    ghost var s := list.nodes;
    FrontMembers(s, n, [n] + Without<ListNode<CacheItem<V>>>(s, n), items);
    list.LPush(n);
  }

  lemma SameMembers<V>(s: seq<ListNode<CacheItem<V>>>, r: seq<ListNode<CacheItem<V>>>, items: map<nat, CacheItem<V>>)
    requires forall n :: n in r <==> n in s
    ensures Vals(r) == Vals(s) && NodeSet(r) == NodeSet(s)
    ensures Indexed(s, items) ==> Indexed(r, items)
  {
  }

  lemma KeysCons<V>(n: ListNode<CacheItem<V>>, s: seq<ListNode<CacheItem<V>>>)
    ensures Keys([n] + s) == [n.val.key] + Keys(s)
  {
  }

  lemma FrontMembers<V>(s: seq<ListNode<CacheItem<V>>>, n: ListNode<CacheItem<V>>,
                        r: seq<ListNode<CacheItem<V>>>, items: map<nat, CacheItem<V>>)
    requires Indexed(s, items) && n in s && Chain(s) && r == [n] + Without(s, n)
    ensures Vals(r) == Vals(s) && NodeSet(r) == NodeSet(s) && Indexed(r, items)
    ensures |r| == |s| && Keys(r) == [n.val.key] + Without(Keys(s), n.val.key)
  {
    NotInWithout(s, n);
    KeysWithout(s, n, items);
    KeysCons(n, Without(s, n));
    assert forall m :: m in r <==> m in s;
    SameMembers(s, r, items);
  }

  lemma DroppedMembers<V>(s: seq<ListNode<CacheItem<V>>>, n: ListNode<CacheItem<V>>,
                          r: seq<ListNode<CacheItem<V>>>, items: map<nat, CacheItem<V>>)
    requires Indexed(s, items) && n in s && Chain(s) && r == Without(s, n)
    ensures Vals(r) == Vals(s) - {n.val} && NodeSet(r) == NodeSet(s) - {n} && Indexed(r, items - {n.val.key})
    ensures |r| == |s| - 1 && Keys(r) == Without(Keys(s), n.val.key)
  {
    NotInWithout(s, n);
    KeysWithout(s, n, items);
    forall m | m in s && m != n ensures m.val != n.val && m.val.key != n.val.key {
    }
  }

  lemma KeysApart<V>(s: seq<ListNode<CacheItem<V>>>, items: map<nat, CacheItem<V>>)
    requires Indexed(s, items) && Chain(s)
    ensures forall i, j :: 0 <= i < j < |s| ==> Keys(s)[i] != Keys(s)[j]
  {
    forall i, j | 0 <= i < j < |s| ensures s[i].val.key != s[j].val.key {
      assert s[i] in s && s[j] in s;
    }
  }

  ghost function SetOf(s: seq<nat>): set<nat> {
    set k | k in s
  }

  lemma {:induction false} DistinctCount(s: seq<nat>)
    requires forall i, j :: 0 <= i < j < |s| ==> s[i] != s[j]
    ensures |SetOf(s)| == |s|
  {
    if s != [] {
      var t := s[1..];
      DistinctCount(t);
      assert s[0] !in SetOf(t);
      assert SetOf(s) == {s[0]} + SetOf(t);
    } else {
      assert SetOf(s) == {};
    }
  }

  lemma KeysCut<V>(s: seq<ListNode<CacheItem<V>>>, k: nat)
    requires k < |s|
    ensures Keys(s[..k] + s[k + 1..]) == Keys(s)[..k] + Keys(s)[k + 1..]
  {
  }

  /** Taking a node out of the list takes its key out of the order. */
  lemma KeysWithout<V>(s: seq<ListNode<CacheItem<V>>>, n: ListNode<CacheItem<V>>, items: map<nat, CacheItem<V>>)
    requires Indexed(s, items) && n in s && Chain(s)
    ensures Keys(Without(s, n)) == Without(Keys(s), n.val.key)
  {
    KeysApart(s, items);
    var k :| 0 <= k < |s| && s[k] == n;
    WithoutAt(s, k);
    WithoutAt(Keys(s), k);
    KeysCut(s, k);
  }
}
