/** lib/memory_indexer: a finite map from keys to values over the AVL tree.
    A `memory_wrapper` is an `AvlNode` that carries its key and value. */
module MemoryIndexer {
  import opened Options
  import opened AvlShape
  import opened AvlTree

  lemma SameKey<V>(s: seq<AvlNode<V>>, m: AvlNode<V>, n: AvlNode<V>)
    requires Sorted(s) && m in s && n in s && m.key == n.key
    ensures m == n
  {
    var i :| 0 <= i < |s| && s[i] == m;
    var j :| 0 <= j < |s| && s[j] == n;
  }

  lemma KeysDistinct<V>(s: seq<AvlNode<V>>)
    requires Sorted(s)
    ensures forall m, n :: m in s && n in s && m.key == n.key ==> m == n
  {
    forall m, n | m in s && n in s && m.key == n.key ensures m == n {
      SameKey(s, m, n);
    }
  }

  /** The finite map that a key-ordered sequence of wrappers stands for. */
  ghost function MapOf<V>(s: seq<AvlNode<V>>): map<nat, V>
    requires Sorted(s)
  {
    KeysDistinct(s);
    map n | n in s :: n.key := n.value
  }

  lemma MapLookup<V>(s: seq<AvlNode<V>>, n: AvlNode<V>)
    requires Sorted(s) && n in s
    ensures n.key in MapOf(s) && MapOf(s)[n.key] == n.value
  {
    KeysDistinct(s);
  }

  lemma SplicedMembers<V>(s: seq<AvlNode<V>>, x: AvlNode<V>, r: seq<AvlNode<V>>)
    requires Spliced(s, x, r)
    ensures forall n :: n in r <==> n == x || n in s
    ensures |r| == |s| + 1
  {
    var i :| 0 <= i <= |s| && r == s[..i] + [x] + s[i..];
    assert s == s[..i] + s[i..];
  }

  lemma SplicedApart<V>(s: seq<AvlNode<V>>, x: AvlNode<V>, r: seq<AvlNode<V>>)
    requires Spliced(s, x, r) && Sorted(r)
    ensures Sorted(s) && forall n :: n in s ==> n.key != x.key
  {
    SortedWithout(s, x, r);
    var i :| 0 <= i <= |s| && r == s[..i] + [x] + s[i..];
    hide Spliced;
    forall n | n in s ensures n.key != x.key {
      var k :| 0 <= k < |s| && s[k] == n;
      SplicedAt(s, i, x, r, k);
    }
  }

  lemma SplicedAt<T>(s: seq<T>, i: nat, x: T, r: seq<T>, k: nat)
    requires i <= |s| && k < |s| && r == s[..i] + [x] + s[i..]
    ensures |r| == |s| + 1 && r[i] == x && r[if k < i then k else k + 1] == s[k]
  {
  }

  lemma MapIs<V>(s: seq<AvlNode<V>>, m: map<nat, V>)
    requires Sorted(s) && forall n :: n in s ==> n.key in m && m[n.key] == n.value
    requires forall k :: k in m ==> HasKey(s, k)
    ensures MapOf(s) == m
  {
    var a := MapOf(s);
    forall k | k in m ensures k in a && a[k] == m[k] {
      var n :| n in s && n.key == k;
      MapLookup(s, n);
    }
  }

  lemma MapWith<V>(s: seq<AvlNode<V>>, x: AvlNode<V>, r: seq<AvlNode<V>>)
    requires Sorted(s) && Sorted(r) && forall n :: n in r <==> n == x || n in s
    requires forall n :: n in s ==> n.key != x.key
    ensures x.key !in MapOf(s) && MapOf(r) == MapOf(s)[x.key := x.value]
  {
    var m := MapOf(s)[x.key := x.value];
    forall n | n in r ensures n.key in m && m[n.key] == n.value {
      if n != x {
        MapLookup(s, n);
      }
    }
    forall k | k in m ensures HasKey(r, k) {
      if k == x.key {
        assert x in r;
      } else {
        var n :| n in s && n.key == k;
        assert n in r;
      }
    }
    MapIs(r, m);
  }

  /** Putting a node in, or taking it out, changes the map at its key only. */
  lemma SplicedMap<V>(s: seq<AvlNode<V>>, x: AvlNode<V>, r: seq<AvlNode<V>>)
    requires Spliced(s, x, r) && Sorted(r)
    ensures Sorted(s) && x.key !in MapOf(s)
    ensures MapOf(r) == MapOf(s)[x.key := x.value]
    ensures MapOf(s) == MapOf(r) - {x.key}
  {
    SplicedApart(s, x, r);
    SplicedMembers(s, x, r);
    MapWith(s, x, r);
    WithoutKey(MapOf(s), x.key, x.value);
  }

  lemma WithoutKey<V>(m: map<nat, V>, k: nat, v: V)
    requires k !in m
    ensures m[k := v] - {k} == m
  {
  }

  class Indexer<V> {
    const avl: AvlTree<V>
    /** The map that the tree stands for. */
    ghost var contents: map<nat, V>
    ghost var repr: set<object>

    ghost predicate Valid()
      reads this, repr
    {
      && this in repr && avl in repr && repr == {this, avl} + Nodes(avl.tree)
      && avl.Valid() && contents == MapOf(Inorder(avl.tree))
    }

    constructor ()
      ensures Valid() && fresh(repr) && contents == map[]
    {
      avl := new AvlTree();
      contents := map[];
      new;
      repr := {this, avl};
    }

    method Search(key: nat) returns (r: Option<V>)
      requires Valid()
      ensures Valid()
      ensures r == if key in contents then Some(contents[key]) else None
    {
      var node := avl.Search(key);
      if node != null {
        MapLookup(Inorder(avl.tree), node);
        return Some(node.value);
      }
      return None;
    }

    method Remove(key: nat)
      requires Valid()
      modifies repr
      ensures Valid() && repr <= old(repr)
      ensures contents == old(contents) - {key}
    {
      hide AvlTree.Valid;
      hide Sorted;
      hide Spliced;
      hide Inorder;
      hide MapOf;
      var node := avl.Search(key);
      if node != null {
        NodesInorder(avl.tree, node);
        avl.Remove(node);
        SplicedMap(Inorder(avl.tree), node, old(Inorder(avl.tree)));
        contents := MapOf(Inorder(avl.tree));
        repr := {this, avl} + Nodes(avl.tree);
      } else {
        NoSuchKey(Inorder(avl.tree), key);
      }
    }

    method Set(key: nat, value: V)
      requires Valid()
      modifies repr
      ensures Valid() && fresh(repr - old(repr))
      ensures contents == old(contents)[key := value]
    {
      hide AvlTree.Valid;
      hide Sorted;
      hide Spliced;
      hide Inorder;
      hide MapOf;
      Remove(key);
      assert allocated(Nodes(avl.tree));
      NoSuchKey(Inorder(avl.tree), key);
      var item := new AvlNode(key, value);
      label removed:
      var r := avl.Insert(item);
      SplicedMap(old@removed(Inorder(avl.tree)), item, Inorder(avl.tree));
      Overwritten(old(contents), key, value);
      contents := MapOf(Inorder(avl.tree));
      repr := {this, avl} + Nodes(avl.tree);
    }

    /** Takes out every node in key order and returns how many there were. */
    method Free() returns (x: nat)
      requires Valid()
      modifies repr
      ensures Valid() && contents == map[] && x == old(|contents|)
    {
      x := 0;
      var node := avl.FirstNode();
      MapSize(Inorder(avl.tree));
      while node != null
        invariant avl.Valid() && {this, avl} + Nodes(avl.tree) <= old(repr)
        invariant node == FirstOf(Inorder(avl.tree))
        invariant x + |Inorder(avl.tree)| == old(|contents|)
        decreases |Inorder(avl.tree)|
      {
        ghost var s := Inorder(avl.tree);
        NodesInorder(avl.tree, node);
        var next := avl.Next(node);
        avl.Remove(node);
        FirstGone(Inorder(avl.tree), node, s, next);
        node := next;
        x := x + 1;
      }
      contents := MapOf(Inorder(avl.tree));
      repr := {this, avl} + Nodes(avl.tree);
    }
  }

  lemma {:induction false} MapSize<V>(s: seq<AvlNode<V>>)
    requires Sorted(s)
    ensures |MapOf(s)| == |s|
  {
    if s != [] {
      var r, x := s[..|s| - 1], s[|s| - 1];
      assert s == r + [x];
      MapSize(r);
      MapWith(r, x, s);
    }
  }

  lemma Overwritten<V>(m: map<nat, V>, k: nat, v: V)
    ensures (m - {k})[k := v] == m[k := v]
  {
  }

  lemma NoSuchKey<V>(s: seq<AvlNode<V>>, key: nat)
    requires Sorted(s)
    ensures key !in MapOf(s) <==> !HasKey(s, key)
  {
  }

  lemma FirstGone<V>(s: seq<AvlNode<V>>, x: AvlNode<V>, r: seq<AvlNode<V>>, next: AvlNode?<V>)
    requires Spliced(s, x, r) && Sorted(r) && FirstOf(r) == x && Follows(r, x, next)
    ensures s == r[1..] && FirstOf(s) == next
  {
    var i :| 0 <= i <= |s| && r == s[..i] + [x] + s[i..];
    assert r[i] == x == r[0];
    var j :| 0 <= j < |r| && r[j] == x && next == FirstOf(r[j + 1..]);
    assert i == 0 && j == 0;
  }
}
