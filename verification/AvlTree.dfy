/** The intrusive AVL tree of lib/avltree/avltree.c: searches, insertion,
    removal and in-order traversal. */
module AvlTree {
  import opened AvlShape
  import opened AvlRotate
  import opened AvlClimb
  import opened AvlRemove

  // ----- keys around a position

  /** Everything before the hole is smaller than `key`, everything after it larger. */
  ghost predicate Around<V>(c: Ctx<V>, key: nat) {
    && (forall n :: n in Before(c) ==> n.key < key)
    && (forall n :: n in After(c) ==> key < n.key)
  }

  lemma SortedParts<V>(a: seq<AvlNode<V>>, b: seq<AvlNode<V>>)
    requires Sorted(a + b)
    ensures Sorted(a) && Sorted(b)
    ensures forall x, y :: x in a && y in b ==> x.key < y.key
  {
    var s := a + b;
    assert forall i :: 0 <= i < |a| ==> a[i] == s[i];
    assert forall i :: 0 <= i < |b| ==> b[i] == s[|a| + i];
  }

  lemma SortedJoin<V>(a: seq<AvlNode<V>>, b: seq<AvlNode<V>>)
    requires Sorted(a) && Sorted(b)
    requires forall x, y :: x in a && y in b ==> x.key < y.key
    ensures Sorted(a + b)
  {
    var s := a + b;
    forall i, j | 0 <= i < j < |s| ensures s[i].key < s[j].key {
      if i < |a| <= j {
        assert s[i] in a && s[j] in b;
      }
    }
  }

  lemma SortedNode<V>(t: Tree<V>, c: Ctx<V>)
    requires t.Node? && Sorted(Inorder(Plug(t, c)))
    ensures forall x :: x in Inorder(t.l) ==> x.key < t.n.key
    ensures forall x :: x in Inorder(t.r) ==> t.n.key < x.key
  {
    PlugInorder(t, c);
    SortedParts(Before(c) + Inorder(t), After(c));
    SortedParts(Before(c), Inorder(t));
    SortedParts(Inorder(t.l) + [t.n], Inorder(t.r));
    SortedParts(Inorder(t.l), [t.n]);
    assert t.n in [t.n] && t.n in Inorder(t.l) + [t.n];
  }

  lemma StepDown<V>(t: Tree<V>, c: Ctx<V>, key: nat)
    requires t.Node? && Sorted(Inorder(Plug(t, c))) && Around(c, key)
    ensures key < t.n.key ==> Around(InLeft(t.n, t.r, c), key)
    ensures t.n.key < key ==> Around(InRight(t.l, t.n, c), key)
  {
    SortedNode(t, c);
  }

  /** The search has reached `t` in `whole`; the key belongs inside `t`. */
  ghost predicate Descent<V>(t: Tree<V>, c: Ctx<V>, key: nat, whole: Tree<V>)
    reads Nodes(t), CtxNodes(c)
  {
    && Plug(t, c) == whole && Sorted(Inorder(whole)) && Around(c, key)
    && Zip(t, c) && Balanced(t) && PathBalanced(c, H(t))
  }

  lemma DescentLeft<V>(t: Tree<V>, c: Ctx<V>, key: nat, whole: Tree<V>)
    requires t.Node? && Descent(t, c, key, whole) && key < t.n.key
    ensures Descent(t.l, InLeft(t.n, t.r, c), key, whole)
  {
    StepDown(t, c, key);
  }

  lemma DescentRight<V>(t: Tree<V>, c: Ctx<V>, key: nat, whole: Tree<V>)
    requires t.Node? && Descent(t, c, key, whole) && t.n.key < key
    ensures Descent(t.r, InRight(t.l, t.n, c), key, whole)
  {
    StepDown(t, c, key);
  }

  ghost predicate HasKey<V>(s: seq<AvlNode<V>>, key: nat) {
    exists n :: n in s && n.key == key
  }

  lemma NotBelow<V>(c: Ctx<V>, key: nat)
    requires Around(c, key)
    ensures !HasKey(Inorder(Plug(Leaf, c)), key)
  {
    PlugInorder(Leaf, c);
  }

  lemma HereIsKey<V>(t: Tree<V>, c: Ctx<V>)
    requires t.Node?
    ensures HasKey(Inorder(Plug(t, c)), t.n.key) && t.n in Nodes(Plug(t, c)) && t.n in Inorder(Plug(t, c))
  {
    PlugInorder(t, c);
    PlugNodes(t, c);
    assert t.n in Inorder(t);
  }

  // ----- the tree itself

  /** `r` is `s` with `x` put in at one place. */
  ghost predicate Spliced<V>(s: seq<AvlNode<V>>, x: AvlNode<V>, r: seq<AvlNode<V>>) {
    exists i :: 0 <= i <= |s| && r == s[..i] + [x] + s[i..]
  }

  lemma LeafSpliced<V>(c: Ctx<V>, x: AvlNode<V>)
    requires Around(c, x.key) && Sorted(Inorder(Plug(Leaf, c)))
    ensures Spliced(Inorder(Plug(Leaf, c)), x, Inorder(Plug(Node(Leaf, x, Leaf), c)))
    ensures Sorted(Inorder(Plug(Node(Leaf, x, Leaf), c)))
  {
    var s, i := Inorder(Plug(Leaf, c)), |Before(c)|;
    PlugInorder(Leaf, c);
    PlugInorder(Node(Leaf, x, Leaf), c);
    assert s == Before(c) + After(c);
    assert s[..i] == Before(c) && s[i..] == After(c);
    assert Inorder(Plug(Node(Leaf, x, Leaf), c)) == s[..i] + [x] + s[i..];
    SortedParts(Before(c), After(c));
    SortedJoin(Before(c), [x]);
    SortedJoin(Before(c) + [x], After(c));
  }

  lemma Unsplice<V>(a: seq<AvlNode<V>>, l: seq<AvlNode<V>>, x: AvlNode<V>, r: seq<AvlNode<V>>, z: seq<AvlNode<V>>)
    ensures Spliced(a + l + r + z, x, a + (l + [x] + r) + z)
  {
    var s, i := a + l + r + z, |a| + |l|;
    assert s[..i] == a + l && s[i..] == r + z;
    assert a + (l + [x] + r) + z == s[..i] + [x] + s[i..];
  }

  lemma SortedWithout<V>(s: seq<AvlNode<V>>, x: AvlNode<V>, r: seq<AvlNode<V>>)
    requires Spliced(s, x, r) && Sorted(r)
    ensures Sorted(s)
  {
    var i :| 0 <= i <= |s| && r == s[..i] + [x] + s[i..];
    assert forall k :: 0 <= k < |s| ==> s[k] == r[if k < i then k else k + 1];
  }

  /** The in-order sequence without the node that `t` had at its root. */
  lemma NoNextSpliced<V>(l: Tree<V>, x: AvlNode<V>, c: Ctx<V>)
    ensures Spliced(Inorder(Plug(l, c)), x, Inorder(Plug(Node(l, x, Leaf), c)))
  {
    PlugInorder(l, c);
    PlugInorder(Node(l, x, Leaf), c);
    Unsplice(Before(c), Inorder(l), x, [], After(c));
    assert Before(c) + Inorder(l) + [] + After(c) == Inorder(Plug(l, c));
  }

  lemma NextSpliced<V>(l: Tree<V>, x: AvlNode<V>, next: AvlNode<V>, nr: Tree<V>, c2: Ctx<V>, c: Ctx<V>)
    requires Leftmost(c2)
    ensures Spliced(Inorder(Plug(nr, Over(c2, InRight(l, next, c)))), x,
                    Inorder(Plug(Node(l, x, Plug(Node(Leaf, next, nr), c2)), c)))
  {
    var r := Plug(Node(Leaf, next, nr), c2);
    NextInorder(next, l, nr, c2, c);
    PlugInorder(Node(l, x, r), c);
    Unsplice(Before(c), Inorder(l), x, Inorder(r), After(c));
  }

  // ----- in-order neighbours

  ghost function FirstOf<V>(s: seq<AvlNode<V>>): AvlNode?<V> {
    if s == [] then null else s[0]
  }

  /** `next` is the node that comes right after `x`. */
  ghost predicate Follows<V>(s: seq<AvlNode<V>>, x: AvlNode<V>, next: AvlNode?<V>) {
    exists i :: 0 <= i < |s| && s[i] == x && next == FirstOf(s[i + 1..])
  }

  lemma FollowsAt<V>(a: seq<AvlNode<V>>, x: AvlNode<V>, b: seq<AvlNode<V>>)
    ensures Follows(a + [x] + b, x, FirstOf(b))
  {
    var s := a + [x] + b;
    assert s[|a|] == x && s[|a| + 1..] == b;
  }

  lemma RegroupAround<T>(a: seq<T>, l: seq<T>, x: T, r: seq<T>, z: seq<T>)
    ensures a + (l + [x] + r) + z == (a + l) + [x] + (r + z)
  {
  }

  lemma AfterNode<V>(t: Tree<V>, c: Ctx<V>)
    requires t.Node?
    ensures Follows(Inorder(Plug(t, c)), t.n, FirstOf(Inorder(t.r) + After(c)))
  {
    PlugInorder(t, c);
    RegroupAround(Before(c), Inorder(t.l), t.n, Inorder(t.r), After(c));
    FollowsAt(Before(c) + Inorder(t.l), t.n, Inorder(t.r) + After(c));
  }

  lemma LeftmostFirst<V>(t: Tree<V>, m: Tree<V>, c: Ctx<V>)
    requires m.Node? && m.l.Leaf? && Leftmost(c) && Plug(m, c) == t
    ensures FirstOf(Inorder(t)) == m.n && Inorder(t) != []
  {
    LeftmostBefore(c);
    PlugInorder(m, c);
  }

  lemma HereIsNode<V>(t: Tree<V>, c: Ctx<V>)
    requires !c.Top?
    ensures c.n in Nodes(Plug(t, c))
  {
    PlugNodes(t, c);
  }

  /** `r` is the first node whose key is not below `key`. */
  ghost predicate IsCeiling<V>(s: seq<AvlNode<V>>, key: nat, r: AvlNode?<V>) {
    && (r == null ==> forall n :: n in s ==> n.key < key)
    && (r != null ==> r in s && key <= r.key && forall n :: n in s && key <= n.key ==> r.key <= n.key)
  }

  lemma CeilingBetween<V>(a: seq<AvlNode<V>>, b: seq<AvlNode<V>>, key: nat)
    requires Sorted(b) && (forall n :: n in a ==> n.key < key) && (forall n :: n in b ==> key < n.key)
    ensures IsCeiling(a + b, key, FirstOf(b))
  {
    forall n | n in a + b && key <= n.key ensures n in b && b[0].key <= n.key {
      var k :| 0 <= k < |b| && b[k] == n;
    }
  }

  lemma CeilingAtGap<V>(c: Ctx<V>, key: nat)
    requires Around(c, key) && Sorted(Inorder(Plug(Leaf, c)))
    ensures IsCeiling(Inorder(Plug(Leaf, c)), key, FirstOf(After(c)))
  {
    PlugInorder(Leaf, c);
    assert Before(c) + [] + After(c) == Before(c) + After(c);
    SortedParts(Before(c), After(c));
    CeilingBetween(Before(c), After(c), key);
  }

  lemma FollowsUnique<V>(a: seq<AvlNode<V>>, x: AvlNode<V>, b: seq<AvlNode<V>>, next: AvlNode?<V>)
    requires Sorted(a + [x] + b) && Follows(a + [x] + b, x, next)
    ensures next == FirstOf(b)
  {
    var s := a + [x] + b;
    var i :| 0 <= i < |s| && s[i] == x && next == FirstOf(s[i + 1..]);
    assert s[|a|] == x && i == |a|;
    assert s[|a| + 1..] == b;
  }

  /** The node just above an empty position is the one before or after it. */
  lemma GapNeighbour<V>(c: Ctx<V>, next: AvlNode?<V>)
    requires c.InRight? && Sorted(Inorder(Plug(Leaf, c))) && Follows(Inorder(Plug(Leaf, c)), c.n, next)
    ensures next == FirstOf(After(c))
  {
    PlugInorder(Leaf, c);
    var a := Before(c.up) + Inorder(c.l);
    assert Before(c) + [] + After(c) == a + [c.n] + After(c);
    FollowsUnique(a, c.n, After(c), next);
  }

  class AvlTree<V> {
    var root: AvlNode?<V>
    ghost var tree: Tree<V>

    /** The pointers form `tree`, which is in key order and balanced, and every
        stored balance factor is exact. */
    ghost predicate Valid()
      reads this, Nodes(tree)
      ensures Valid() ==> Sorted(Inorder(tree))
    {
      && root == Root(tree) && Linked(tree, null) && Distinct(tree) && Balanced(tree)
      && Sorted(Inorder(tree))
    }

    constructor ()
      ensures Valid() && tree == Leaf
    {
      root := null;
      tree := Leaf;
    }

    method Search(key: nat) returns (p: AvlNode?<V>)
      requires Valid()
      ensures Valid()
      ensures p != null ==> p in Inorder(tree) && p.key == key && HasKey(Inorder(tree), key)
      ensures p == null ==> !HasKey(Inorder(tree), key)
    {
      assert allocated(Nodes(tree));
      p := root;
      ghost var t: Tree<V>, c: Ctx<V> := tree, Top;
      while p != null
        invariant Valid() && p == Root(t) && Descent(t, c, key, tree)
        decreases t
      {
        if p.key > key {
          DescentLeft(t, c, key, tree);
          p := p.left;
          t, c := t.l, InLeft(t.n, t.r, c);
        } else if p.key < key {
          DescentRight(t, c, key, tree);
          p := p.right;
          t, c := t.r, InRight(t.l, t.n, c);
        } else {
          HereIsKey(t, c);
          return;
        }
      }
      NotBelow(c, key);
    }

    /** The downward loop of `avl_insert`: the node with this key, or the
        parent `p` below which it belongs. */
    method Descend(key: nat) returns (cur: AvlNode?<V>, p: AvlNode?<V>, ghost c: Ctx<V>)
      requires Valid()
      ensures Valid()
      ensures cur != null ==> cur in Inorder(tree) && cur.key == key && HasKey(Inorder(tree), key)
      ensures cur == null ==> !HasKey(Inorder(tree), key) && p == Above(c) && Descent(Leaf, c, key, tree)
    {
      assert allocated(Nodes(tree));
      p := null;
      cur := root;
      ghost var t: Tree<V> := tree;
      c := Top;
      while cur != null
        invariant Valid() && cur == Root(t) && p == Above(c) && Descent(t, c, key, tree)
        decreases t
      {
        p := cur;
        if cur.key > key {
          DescentLeft(t, c, key, tree);
          cur := cur.left;
          t, c := t.l, InLeft(t.n, t.r, c);
        } else if cur.key < key {
          DescentRight(t, c, key, tree);
          cur := cur.right;
          t, c := t.r, InRight(t.l, t.n, c);
        } else {
          HereIsKey(t, c);
          return;
        }
      }
      NotBelow(c, key);
    }

    /** `avl_insert`: adds exactly `node`, or returns the node that already has its key. */
    method Insert(node: AvlNode<V>) returns (r: AvlNode<V>)
      requires Valid() && node !in Nodes(tree)
      modifies this, Nodes(tree), node
      ensures Valid()
      ensures HasKey(old(Inorder(tree)), node.key) ==>
                r in old(Inorder(tree)) && r.key == node.key && tree == old(tree)
      ensures !HasKey(old(Inorder(tree)), node.key) ==>
                r == node && Spliced(old(Inorder(tree)), node, Inorder(tree)) &&
                Nodes(tree) == old(Nodes(tree)) + {node}
    {
      var cur, p;
      ghost var c;
      cur, p, c := Descend(node.key);
      if cur != null {
        return cur;
      }
      var newRoot;
      ghost var newTree;
      PlugNodes(Leaf, c);
      newRoot, newTree := AddLeaf(root, node, p, c);
      assert allocated(Nodes(newTree));
      root, tree := newRoot, newTree;
      r := node;
    }

    /** `avl_remove`: takes out exactly `node`. */
    method Remove(node: AvlNode<V>)
      requires Valid() && node in Nodes(tree)
      modifies this, Nodes(tree)
      ensures Valid()
      ensures Spliced(Inorder(tree), node, old(Inorder(tree)))
      ensures Nodes(tree) == old(Nodes(tree)) - {node}
    {
      ghost var t, c := Locate(tree, Top, node);
      PlugNodes(t, c);
      var newRoot;
      ghost var newTree;
      newRoot, newTree := RemoveAt(root, node, t, c);
      SortedWithout(Inorder(newTree), node, Inorder(tree));
      assert allocated(Nodes(newTree));
      root, tree := newRoot, newTree;
    }

    /** `avl_first` of the whole tree. */
    method FirstNode() returns (r: AvlNode?<V>)
      requires Valid()
      ensures Valid() && r == FirstOf(Inorder(tree))
    {
      assert allocated(Nodes(tree));
      ghost var m, c;
      r, m, c := First(root, tree, null);
      if r != null {
        LeftmostFirst(tree, m, c);
      }
    }

    /** `avl_search_greater`: the exact match, or else the smallest larger node. */
    method SearchGreater(key: nat) returns (r: AvlNode?<V>)
      requires Valid()
      ensures Valid() && IsCeiling(Inorder(tree), key, r)
    {
      var cur, pp;
      ghost var c;
      cur, pp, c := Descend(key);
      if cur != null {
        return cur;
      }
      CeilingAtGap(c, key);
      if pp == null {
        return null;
      }
      assert c.InLeft? ==> c.n == FirstOf(After(c)) && c.n in After(c);
      assert c.InRight? ==> c.n in Before(c);
      HereIsNode(Leaf, c);
      if pp.key > key {
        return pp;
      }
      r := Next(pp);
      GapNeighbour(c, r);
    }

    /** `avl_next`: down the right subtree, or up to the first left turn. */
    method Next(node: AvlNode<V>) returns (r: AvlNode?<V>)
      requires Valid() && node in Nodes(tree)
      ensures Valid() && Follows(Inorder(tree), node, r)
    {
      assert allocated(Nodes(tree));
      ghost var t, c := Locate(tree, Top, node);
      AfterNode(t, c);
      if node.right != null {
        ghost var m, d;
        r, m, d := First(node.right, t.r, node);
        LeftmostFirst(t.r, m, d);
        return;
      }
      r := ClimbNext(node, t, c);
    }
  }

  method ClimbNext<V>(node: AvlNode<V>, ghost t0: Tree<V>, ghost c0: Ctx<V>) returns (r: AvlNode?<V>)
    requires t0.Node? && t0.n == node && Zip(t0, c0)
    ensures r == FirstOf(After(c0))
  {
    var p, cur := node, node.parent;
    ghost var t, c := t0, c0;
    while cur != null
      invariant t.Node? && p == t.n && cur == Above(c) && Zip(t, c) && After(c) == After(c0)
      decreases c
    {
      NodeIsLeft(t, c);
      if cur.left == p {
        return cur;
      }
      UpKeepsAll(t, c);
      t, c := Up(t, c), c.up;
      p := cur;
      cur := cur.parent;
    }
    return null;
  }

  /** `avl_remove`, for a node whose position is known. */
  method RemoveAt<V>(root: AvlNode<V>, node: AvlNode<V>, ghost t: Tree<V>, ghost c: Ctx<V>)
    returns (newRoot: AvlNode?<V>, ghost tree: Tree<V>)
    requires t.Node? && t.n == node && Zip(t, c) && Balanced(t) && PathBalanced(c, H(t))
    requires root == Root(Plug(t, c))
    modifies Nodes(Plug(t, c))
    ensures newRoot == Root(tree) && Linked(tree, null) && Distinct(tree) && Balanced(tree)
    ensures Spliced(Inorder(tree), node, Inorder(Plug(t, c))) && Nodes(tree) == Nodes(Plug(t, c)) - {node}
  {
    assert allocated(Nodes(t)) && allocated(CtxNodes(c));
    PlugNodes(t, c);
    var next;
    ghost var m, c2;
    next, m, c2 := First(node.right, t.r, node);
    if next != null {
      newRoot, tree := RemoveLocated(root, node, next, t, m, c2, c);
    } else {
      NoNextSpliced(t.l, node, c);
      PlugNodes(t.l, c);
      newRoot, tree := RemoveNoNext(root, node, t.l, c, H(t));
    }
  }

  lemma NodesWithout<V>(node: AvlNode<V>, next: AvlNode<V>, l: Tree<V>, nr: Tree<V>, c2: Ctx<V>, c: Ctx<V>)
    requires Zip(Node(Leaf, next, nr), Over(c2, InRight(l, node, c)))
    ensures var whole := Nodes(Plug(Node(l, node, Plug(Node(Leaf, next, nr), c2)), c));
            Nodes(Plug(nr, Over(c2, InRight(l, next, c)))) == whole - {node} &&
            CtxNodes(c) + CtxNodes(c2) + Nodes(l) + Nodes(nr) + {next} <= whole && node !in CtxNodes(c)
  {
    NextNodesBefore(node, next, l, nr, c2, c);
    NextNodesAfter(next, l, nr, c2, c);
    OpenGap(node, next, l, nr, c2, c);
    PlugNodes(nr, c2);
  }

  method RemoveLocated<V>(root: AvlNode<V>, node: AvlNode<V>, next: AvlNode<V>,
                          ghost t: Tree<V>, ghost m: Tree<V>, ghost c2: Ctx<V>, ghost c: Ctx<V>)
    returns (newRoot: AvlNode<V>, ghost tree: Tree<V>)
    requires t.Node? && t.n == node && Zip(t, c) && Balanced(t) && PathBalanced(c, H(t))
    requires m.Node? && m.l.Leaf? && m.n == next && Leftmost(c2) && t.r == Plug(m, c2)
    requires root == Root(Plug(t, c))
    modifies Nodes(Plug(t, c))
    ensures newRoot == Root(tree) && Linked(tree, null) && Distinct(tree) && Balanced(tree)
    ensures Spliced(Inorder(tree), node, Inorder(Plug(t, c))) && Nodes(tree) == Nodes(Plug(t, c)) - {node}
  {
    OpenAtNext(node, t.l, m, c2, c);
    NextSpliced(t.l, node, next, m.r, c2, c);
    NodesWithout(node, next, t.l, m.r, c2, c);
    newRoot, tree := RemoveWithNext(root, node, next, t.l, m.r, c2, c, H(m), HeightAt(c2, H(m)));
  }

  /** The rest of `avl_insert`, once the place for the node is known. */
  method AddLeaf<V>(root: AvlNode?<V>, node: AvlNode<V>, p: AvlNode?<V>, ghost c: Ctx<V>)
    returns (newRoot: AvlNode<V>, ghost tree: Tree<V>)
    requires root == Root(Plug(Leaf, c)) && p == Above(c) && node !in CtxNodes(c)
    requires Descent(Leaf, c, node.key, Plug(Leaf, c))
    modifies node, CtxNodes(c)
    ensures newRoot == Root(tree) && Linked(tree, null) && Distinct(tree) && Balanced(tree)
    ensures Spliced(Inorder(Plug(Leaf, c)), node, Inorder(tree)) && Sorted(Inorder(tree))
    ensures Nodes(tree) == CtxNodes(c) + {node}
  {
    LeafSpliced(c, node);
    PlugNodes(Node(Leaf, node, Leaf), c);
    var top := LinkLeaf(root, node, p, c);
    newRoot, tree := ClimbInsert(top, node, Node(Leaf, node, Leaf), c);
  }

  /** The node is hung below `p`, on the side that its key belongs. */
  method LinkLeaf<V>(root: AvlNode?<V>, node: AvlNode<V>, p: AvlNode?<V>, ghost c: Ctx<V>) returns (top: AvlNode<V>)
    requires Zip(Leaf, c) && PathBalanced(c, 0) && p == Above(c) && node !in CtxNodes(c)
    requires root == Root(Plug(Leaf, c)) && Around(c, node.key)
    modifies node, (if c.Top? then {} else {c.n})`left, (if c.Top? then {} else {c.n})`right
    ensures Climbing(Node(Leaf, node, Leaf), c, 0) && node.bf == 0
    ensures top == Root(Plug(Node(Leaf, node, Leaf), c))
  {
    ghost var t := Node(Leaf, node, Leaf);
    assert Nodes(t) == {node};
    label before:
    node.parent := p;
    SetBf(node, 0);
    node.left, node.right := null, null;
    PathFrame@before(c, null);
    PathBalancedFrame@before(c, 0);
    assert Distinct(t) && Linked(t, p);
    if p != null {
      PlugRoot(Leaf, t, c);
      top := root;
      AttachLeaf(p, node, c);
    } else {
      top := node;
    }
  }

  method AttachLeaf<V>(p: AvlNode<V>, node: AvlNode<V>, ghost c: Ctx<V>)
    requires !c.Top? && p == c.n && Around(c, node.key) && node !in CtxNodes(c)
    requires PathDistinct(c) && Path(c, null) && PathBalanced(c, 0)
    requires Linked(Node(Leaf, node, Leaf), p)
    modifies p`left, p`right
    ensures Zip(Node(Leaf, node, Leaf), c) && PathBalanced(c, 0)
  {
    label linked:
    assert c.InLeft? ==> c.n in After(c);
    assert c.InRight? ==> c.n in Before(c);
    if p.key > node.key {
      p.left := node;
    } else {
      p.right := node;
    }
    PathMoved@linked(Node(Leaf, node, Leaf), c, null, node, 0);
  }
}
