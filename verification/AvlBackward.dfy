/** The mirror half of the in-order traversal of lib/avltree/avltree.c, and what
    a whole traversal visits. */
module AvlBackward {
  import opened AvlShape
  import opened AvlClimb
  import opened AvlTree

  ghost predicate Rightmost<V>(c: Ctx<V>) {
    c.Top? || (c.InRight? && Rightmost(c.up))
  }

  lemma {:induction false} RightmostAfter<V>(c: Ctx<V>)
    requires Rightmost(c)
    ensures After(c) == []
    decreases c
  {
    if !c.Top? {
      RightmostAfter(c.up);
    }
  }

  ghost function LastOf<V>(s: seq<AvlNode<V>>): AvlNode?<V> {
    if s == [] then null else s[|s| - 1]
  }

  /** `prev` is the node that comes right before `x`. */
  ghost predicate Precedes<V>(s: seq<AvlNode<V>>, prev: AvlNode?<V>, x: AvlNode<V>) {
    exists i :: 0 <= i < |s| && s[i] == x && prev == LastOf(s[..i])
  }

  lemma PrecedesAt<V>(a: seq<AvlNode<V>>, x: AvlNode<V>, b: seq<AvlNode<V>>)
    ensures Precedes(a + [x] + b, LastOf(a), x)
  {
    var s := a + [x] + b;
    assert s[|a|] == x && s[..|a|] == a;
  }

  lemma PrecedesUnique<V>(a: seq<AvlNode<V>>, x: AvlNode<V>, b: seq<AvlNode<V>>, prev: AvlNode?<V>)
    requires Sorted(a + [x] + b) && Precedes(a + [x] + b, prev, x)
    ensures prev == LastOf(a)
  {
    var s := a + [x] + b;
    var i :| 0 <= i < |s| && s[i] == x && prev == LastOf(s[..i]);
    assert s[|a|] == x && i == |a|;
    assert s[..|a|] == a;
  }

  lemma BeforeNode<V>(t: Tree<V>, c: Ctx<V>)
    requires t.Node?
    ensures Precedes(Inorder(Plug(t, c)), LastOf(Before(c) + Inorder(t.l)), t.n)
  {
    PlugInorder(t, c);
    RegroupAround(Before(c), Inorder(t.l), t.n, Inorder(t.r), After(c));
    PrecedesAt(Before(c) + Inorder(t.l), t.n, Inorder(t.r) + After(c));
  }

  lemma RightmostLast<V>(t: Tree<V>, m: Tree<V>, c: Ctx<V>)
    requires m.Node? && m.r.Leaf? && Rightmost(c) && Plug(m, c) == t
    ensures LastOf(Inorder(t)) == m.n && Inorder(t) != []
  {
    RightmostAfter(c);
    PlugInorder(m, c);
  }

  /** `avl_last`: the rightmost node, here also with its position. */
  method Last<V>(root: AvlNode?<V>, ghost t: Tree<V>, ghost up: AvlNode?<V>)
    returns (p: AvlNode?<V>, ghost m: Tree<V>, ghost c: Ctx<V>)
    requires root == Root(t) && Linked(t, up)
    ensures p == null <==> t.Leaf?
    ensures p != null ==> m.Node? && m.r.Leaf? && m.n == p && Rightmost(c) && Plug(m, c) == t
  {
    p := null;
    var node := root;
    ghost var s, par := t, up;
    m, c := Leaf, Top;
    ghost var d: Ctx<V> := Top;
    while node != null
      invariant node == Root(s) && Linked(s, par)
      invariant p == null ==> s == t && d.Top?
      invariant Rightmost(d) && Plug(s, d) == t
      invariant p != null ==> t.Node? && m.Node? && m.n == p && m.r == s && Rightmost(c) && Plug(m, c) == t
      decreases s
    {
      p := node;
      m, c := s, d;
      node := node.right;
      d, s, par := InRight(s.l, s.n, d), s.r, s.n;
    }
  }

  /** `avl_last` of the whole tree. */
  method LastNode<V>(avl: AvlTree<V>) returns (r: AvlNode?<V>)
    requires avl.Valid()
    ensures r == LastOf(Inorder(avl.tree))
  {
    assert allocated(Nodes(avl.tree));
    ghost var m, c;
    r, m, c := Last(avl.root, avl.tree, null);
    if r != null {
      RightmostLast(avl.tree, m, c);
    }
  }

  lemma NodeIsRight<V>(t: Tree<V>, c: Ctx<V>)
    requires t.Node? && !c.Top? && Zip(t, c)
    ensures c.n.right == t.n <==> c.InRight?
  {
    if c.InLeft? {
      assert c.r.Node? ==> c.r.n in CtxNodes(c);
      assert t.n in Nodes(t);
    }
  }

  method ClimbPrev<V>(node: AvlNode<V>, ghost t0: Tree<V>, ghost c0: Ctx<V>) returns (r: AvlNode?<V>)
    requires t0.Node? && t0.n == node && Zip(t0, c0)
    ensures r == LastOf(Before(c0))
  {
    var p, cur := node, node.parent;
    ghost var t, c := t0, c0;
    while cur != null
      invariant t.Node? && p == t.n && cur == Above(c) && Zip(t, c) && Before(c) == Before(c0)
      decreases c
    {
      NodeIsRight(t, c);
      if cur.right == p {
        return cur;
      }
      UpKeepsAll(t, c);
      t, c := Up(t, c), c.up;
      p := cur;
      cur := cur.parent;
    }
    return null;
  }

  /** `avl_prev`: down the left subtree, or up to the first right turn. */
  method Prev<V>(avl: AvlTree<V>, node: AvlNode<V>) returns (r: AvlNode?<V>)
    requires avl.Valid() && node in Nodes(avl.tree)
    ensures Precedes(Inorder(avl.tree), r, node)
  {
    assert allocated(Nodes(avl.tree));
    ghost var t, c := Locate(avl.tree, Top, node);
    BeforeNode(t, c);
    if node.left != null {
      ghost var m, d;
      r, m, d := Last(node.left, t.l, node);
      RightmostLast(t.l, m, d);
      return;
    }
    r := ClimbPrev(node, t, c);
    assert Before(c) + Inorder(t.l) == Before(c);
  }

  /** `r` is the last node whose key is not above `key`. */
  ghost predicate IsFloor<V>(s: seq<AvlNode<V>>, key: nat, r: AvlNode?<V>) {
    && (r == null ==> forall n :: n in s ==> key < n.key)
    && (r != null ==> r in s && r.key <= key && forall n :: n in s && n.key <= key ==> n.key <= r.key)
  }

  lemma FloorBetween<V>(a: seq<AvlNode<V>>, b: seq<AvlNode<V>>, key: nat)
    requires Sorted(a) && (forall n :: n in a ==> n.key < key) && (forall n :: n in b ==> key < n.key)
    ensures IsFloor(a + b, key, LastOf(a))
  {
    forall n | n in a + b && n.key <= key ensures n in a && n.key <= a[|a| - 1].key {
      var k :| 0 <= k < |a| && a[k] == n;
    }
  }

  lemma FloorAtGap<V>(c: Ctx<V>, key: nat)
    requires Around(c, key) && Sorted(Inorder(Plug(Leaf, c)))
    ensures IsFloor(Inorder(Plug(Leaf, c)), key, LastOf(Before(c)))
  {
    PlugInorder(Leaf, c);
    assert Before(c) + [] + After(c) == Before(c) + After(c);
    SortedParts(Before(c), After(c));
    FloorBetween(Before(c), After(c), key);
  }

  lemma JoinFour<T>(a: seq<T>, x: T, b: seq<T>, d: seq<T>)
    ensures a + [] + ([x] + b + d) == a + [x] + (b + d)
  {
  }

  lemma GapNeighbourBefore<V>(c: Ctx<V>, prev: AvlNode?<V>)
    requires c.InLeft? && Sorted(Inorder(Plug(Leaf, c))) && Precedes(Inorder(Plug(Leaf, c)), prev, c.n)
    ensures prev == LastOf(Before(c))
  {
    hide Precedes;
    hide Sorted;
    PlugInorder(Leaf, c);
    var b := Inorder(c.r) + After(c.up);
    JoinFour(Before(c), c.n, Inorder(c.r), After(c.up));
    PrecedesUnique(Before(c), c.n, b, prev);
  }

  /** `avl_search_smaller`: the exact match, or else the greatest smaller node. */
  method SearchSmaller<V>(avl: AvlTree<V>, key: nat) returns (r: AvlNode?<V>)
    requires avl.Valid()
    ensures IsFloor(Inorder(avl.tree), key, r)
  {
    var cur, pp;
    ghost var c;
    cur, pp, c := avl.Descend(key);
    if cur != null {
      return cur;
    }
    FloorAtGap(c, key);
    if pp == null {
      return null;
    }
    assert c.InRight? ==> c.n == LastOf(Before(c)) && c.n in Before(c);
    assert c.InLeft? ==> c.n in After(c);
    HereIsNode(Leaf, c);
    if pp.key < key {
      return pp;
    }
    r := Prev(avl, pp);
    GapNeighbourBefore(c, r);
  }

  /** `avl_first`, and `avl_next` until there is none: every node once, in key order. */
  method Traverse<V>(avl: AvlTree<V>) returns (v: seq<AvlNode<V>>)
    requires avl.Valid()
    ensures v == Inorder(avl.tree) && forall i, j :: 0 <= i < j < |v| ==> v[i].key < v[j].key
  {
    hide *;
    ghost var s := Inorder(avl.tree);
    assert s[0..] == s;
    v := [];
    var node := avl.FirstNode();
    while node != null
      invariant avl.Valid() && Inorder(avl.tree) == s && |v| <= |s| && v == s[..|v|] && node == FirstOf(s[|v|..])
      decreases |s| - |v|
    {
      AtFirst(s, |v|, node);
      NodesInorder(avl.tree, node);
      var next := avl.Next(node);
      NextInOrder(s, |v|, next);
      v := v + [node];
      node := next;
    }
    AtEnd(s, |v|);
  }

  lemma AtFirst<V>(s: seq<AvlNode<V>>, k: nat, node: AvlNode<V>)
    requires k <= |s| && node == FirstOf(s[k..])
    ensures k < |s| && node == s[k] && node in s
  {
  }

  lemma AtEnd<V>(s: seq<AvlNode<V>>, k: nat)
    requires Sorted(s) && k <= |s| && FirstOf(s[k..]) == null
    ensures s[..k] == s && forall i, j :: 0 <= i < j < |s| ==> s[i].key < s[j].key
  {
  }

  lemma NextInOrder<V>(s: seq<AvlNode<V>>, k: nat, next: AvlNode?<V>)
    requires Sorted(s) && k < |s| && Follows(s, s[k], next)
    ensures next == FirstOf(s[k + 1..]) && s[..k + 1] == s[..k] + [s[k]]
  {
    assert s == s[..k] + [s[k]] + s[k + 1..];
    hide Sorted;
    hide Follows;
    FollowsUnique(s[..k], s[k], s[k + 1..], next);
  }

  /** A walk: from the first node on, each next one, until there is none. */
  ghost predicate IsWalk<V>(s: seq<AvlNode<V>>, v: seq<AvlNode<V>>) {
    && FirstOf(v) == FirstOf(s)
    && forall i :: 0 <= i < |v| ==> Follows(s, v[i], FirstOf(v[i + 1..]))
  }

  lemma WalkStep<V>(s: seq<AvlNode<V>>, v: seq<AvlNode<V>>, k: nat)
    requires IsWalk(s, v) && 0 < k <= |v|
    ensures Follows(s, v[k - 1], FirstOf(v[k..])) && FirstOf(v[k - 1..]) == v[k - 1]
  {
  }

  lemma Extend<T>(s: seq<T>, v: seq<T>, k: nat)
    requires 0 < k <= |s| && k <= |v| && v[..k - 1] == s[..k - 1] && v[k - 1] == s[k - 1]
    ensures v[..k] == s[..k] && s == s[..k - 1] + [s[k - 1]] + s[k..]
  {
    assert v[..k] == v[..k - 1] + [v[k - 1]] && s[..k] == s[..k - 1] + [s[k - 1]];
  }

  /** `avl_first` and then `avl_next` to the end visits every node once, in key order. */
  lemma {:induction false} WalkVisitsAll<V>(s: seq<AvlNode<V>>, v: seq<AvlNode<V>>)
    requires Sorted(s) && IsWalk(s, v)
    ensures v == s
  {
    WalkPrefix(s, v, |v|);
    assert v[..|v|] == v && FirstOf(v[|v|..]) == null && s[..|v|] + s[|v|..] == s;
  }

  lemma {:induction false} WalkPrefix<V>(s: seq<AvlNode<V>>, v: seq<AvlNode<V>>, k: nat)
    requires Sorted(s) && IsWalk(s, v) && k <= |v|
    ensures k <= |s| && v[..k] == s[..k] && FirstOf(v[k..]) == FirstOf(s[k..])
  {
    if k == 0 {
      assert v[0..] == v && s[0..] == s;
    } else {
      WalkPrefix(s, v, k - 1);
      hide IsWalk;
      hide Follows;
      hide Sorted;
      WalkStep(s, v, k);
      assert s[k - 1..] != [] && s[k - 1] == v[k - 1];
      Extend(s, v, k);
      FollowsUnique(s[..k - 1], v[k - 1], s[k..], FirstOf(v[k..]));
    }
  }
}
