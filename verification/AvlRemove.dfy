/** `avl_remove` of lib/avltree/avltree.c: unlinking a node, with or without a
    successor in its right subtree, before the upward rebalancing loop. */
module AvlRemove {
  import opened AvlShape
  import opened AvlRotate
  import opened AvlClimb

  // ----- stacking one path on another

  ghost function Over<V>(c: Ctx<V>, base: Ctx<V>): Ctx<V> {
    match c
    case Top => base
    case InLeft(n, r, up) => InLeft(n, r, Over(up, base))
    case InRight(l, n, up) => InRight(l, n, Over(up, base))
  }

  lemma {:induction false} PlugOver<V>(t: Tree<V>, c: Ctx<V>, base: Ctx<V>)
    ensures Plug(t, Over(c, base)) == Plug(Plug(t, c), base)
    decreases c
  {
    if !c.Top? {
      PlugOver(Up(t, c), c.up, base);
    }
  }

  lemma {:induction false} OverNodes<V>(c: Ctx<V>, base: Ctx<V>)
    ensures CtxNodes(Over(c, base)) == CtxNodes(c) + CtxNodes(base)
    decreases c
  {
    if !c.Top? {
      OverNodes(c.up, base);
    }
  }

  lemma ZipUp<V>(t: Tree<V>, c: Ctx<V>)
    requires !c.Top?
    ensures Zip(Up(t, c), c.up) <==> Zip(t, c)
  {
  }

  lemma {:induction false} ZipOver<V>(t: Tree<V>, c: Ctx<V>, base: Ctx<V>)
    ensures Zip(Plug(t, c), base) <==> Zip(t, Over(c, base))
    decreases c
  {
    if !c.Top? {
      ZipUp(t, Over(c, base));
      ZipOver(Up(t, c), c.up, base);
    }
  }

  /** The height of what the path makes of a hole of height `h`. */
  ghost function HeightAt<V>(c: Ctx<V>, h: nat): nat
    decreases c
  {
    if c.Top? then h else HeightAt(c.up, UpHeight(c, h))
  }

  lemma {:induction false} PlugHeight<V>(t: Tree<V>, c: Ctx<V>)
    ensures H(Plug(t, c)) == HeightAt(c, H(t))
    decreases c
  {
    if !c.Top? {
      PlugHeight(Up(t, c), c.up);
    }
  }

  lemma {:induction false} PathBalancedOver<V>(c: Ctx<V>, base: Ctx<V>, h: nat)
    requires PathBalanced(c, h) && PathBalanced(base, HeightAt(c, h))
    ensures PathBalanced(Over(c, base), h)
    decreases c
  {
    if !c.Top? {
      PathBalancedOver(c.up, base, UpHeight(c, h));
    }
  }

  lemma {:induction false} OpenBalanced<V>(t: Tree<V>, c: Ctx<V>)
    requires Balanced(Plug(t, c))
    ensures Balanced(t) && PathBalanced(c, H(t))
    decreases c
  {
    if !c.Top? {
      assert Plug(Up(t, c), c.up) == Plug(t, c);
      hide Plug;
      OpenBalanced(Up(t, c), c.up);
    }
  }

  // ----- the two ways to unlink a node

  ghost predicate Leftmost<V>(c: Ctx<V>) {
    c.Top? || (c.InLeft? && Leftmost(c.up))
  }

  lemma {:induction false} LeftmostBefore<V>(c: Ctx<V>)
    requires Leftmost(c)
    ensures Before(c) == []
    decreases c
  {
    if !c.Top? {
      LeftmostBefore(c.up);
    }
  }

  /** `avl_first`: the leftmost node, here also with its position. */
  method First<V>(root: AvlNode?<V>, ghost t: Tree<V>, ghost up: AvlNode?<V>)
    returns (p: AvlNode?<V>, ghost m: Tree<V>, ghost c: Ctx<V>)
    requires root == Root(t) && Linked(t, up)
    ensures p == null <==> t.Leaf?
    ensures p != null ==> m.Node? && m.l.Leaf? && m.n == p && Leftmost(c) && Plug(m, c) == t
  {
    p := null;
    var node := root;
    ghost var s, par := t, up;
    m, c := Leaf, Top;
    ghost var d: Ctx<V> := Top;
    while node != null
      invariant node == Root(s) && Linked(s, par)
      invariant p == null ==> s == t && d.Top?
      invariant Leftmost(d) && Plug(s, d) == t
      invariant p != null ==> t.Node? && m.Node? && m.n == p && m.l == s && Leftmost(c) && Plug(m, c) == t
      decreases s
    {
      p := node;
      m, c := s, d;
      node := node.left;
      d, s, par := InLeft(s.n, s.r, d), s.l, s.n;
    }
  }

  /** The successor leaves its place at the bottom of a left spine. */
  method UnlinkNext<V>(next: AvlNode<V>, q: AvlNode<V>, ghost nr: Tree<V>, ghost d: Ctx<V>)
    requires d.InLeft? && q == d.n && Zip(Node(Leaf, next, nr), d)
    modifies q`left, RootSet(nr)`parent
    ensures Zip(nr, d)
  {
    assert nr.Node? ==> nr.n in Nodes(nr);
    label before:
    q.left := next.right;
    if next.right != null {
      next.right.parent := q;
    }
    Reparented@before(nr, next, q);
    LinkedFrame@before(d.r, q);
    PathFrame@before(d.up, q);
  }

  ghost function BelowTop<V>(c: Ctx<V>): set<AvlNode<V>> {
    if c.Top? then {} else {c.n}
  }

  /** Only the child pointer at the bottom of the path moved, from `was` to `hole`. */
  twostate lemma NewHole<V>(new c: Ctx<V>, new was: AvlNode?<V>, new hole: AvlNode?<V>)
    requires old(allocated(c)) && old(allocated(was)) && old(allocated(CtxNodes(c)))
    requires PathDistinct(c) && old(Path(c, was)) && SameLinks(CtxNodes(c) - BelowTop(c))
    requires !c.Top? ==> c.n.parent == old(c.n.parent)
    requires c.InLeft? ==> c.n.right == old(c.n.right) && c.n.left == hole
    requires c.InRight? ==> c.n.left == old(c.n.left) && c.n.right == hole
    ensures Path(c, hole)
  {
    if !c.Top? {
      LinkedFrame(if c.InLeft? then c.r else c.l, c.n);
      PathFrame(c.up, c.n);
    }
  }

  /** The parent of `node` (if any) points to `next` instead. */
  method ReplaceInParent<V>(node: AvlNode<V>, next: AvlNode?<V>, ghost c: Ctx<V>)
    requires PathDistinct(c) && Path(c, node) && node.parent == Above(c) && node !in CtxNodes(c)
    modifies BelowTop(c)`left, BelowTop(c)`right
    ensures Path(c, next)
  {
    assert c.InLeft? && c.r.Node? ==> c.r.n in CtxNodes(c);
    assert c.InRight? && c.l.Node? ==> c.l.n in CtxNodes(c);
    label before:
    if node.parent != null {
      if node.parent.left == node {
        node.parent.left := next;
      } else {
        node.parent.right := next;
      }
    }
    NewHole@before(c, node, next);
  }

  /** The successor takes over the right subtree, unless it is its root already. */
  method AdoptRight<V>(node: AvlNode<V>, next: AvlNode<V>, ghost r: Tree<V>)
    requires node != next && next !in Nodes(r) && Distinct(r)
    requires node.right == next ==> next.right == Root(r) && Linked(r, next)
    requires node.right != next ==> node.right == Root(r) && Linked(r, node)
    modifies next`right, RootSet(r)`parent
    ensures next.right == Root(r) && Linked(r, next)
  {
    RootAllocated(r);
    label before:
    if node.right != next {
      next.right := node.right;
      if node.right != null {
        node.right.parent := next;
      }
    }
    Reparented@before(r, if node.right == next then next else node, next);
  }

  /** The successor takes over the left subtree. */
  method AdoptLeft<V>(node: AvlNode<V>, next: AvlNode<V>, ghost l: Tree<V>)
    requires node != next && node !in Nodes(l) && next !in Nodes(l) && Distinct(l)
    requires node.left == Root(l) && Linked(l, node)
    modifies next`left, RootSet(l)`parent
    ensures next.left == Root(l) && Linked(l, next)
  {
    RootAllocated(l);
    label before:
    next.left := node.left;
    if node.left != null {
      node.left.parent := next;
    }
    Reparented@before(l, node, next);
  }

  /** The successor takes over the parent, children and balance factor of `node`. */
  method TakePlace<V>(node: AvlNode<V>, next: AvlNode<V>, ghost l: Tree<V>, ghost r: Tree<V>)
    requires Distinct(l) && Distinct(r) && Nodes(l) !! Nodes(r) && node != next
    requires node !in Nodes(l) && node !in Nodes(r) && next !in Nodes(l) && next !in Nodes(r)
    requires node.left == Root(l) && Linked(l, node) && -1 <= node.bf <= 1
    requires node.right == next ==> next.right == Root(r) && Linked(r, next)
    requires node.right != next ==> node.right == Root(r) && Linked(r, node)
    modifies next, (RootSet(l) + RootSet(r))`parent
    ensures Linked(Node(l, next, r), node.parent) && next.bf == node.bf
  {
    RootAllocated(l);
    RootAllocated(r);
    label before:
    AdoptRight(node, next, r);
    LinkedFrame@before(l, node);
    label right:
    AdoptLeft(node, next, l);
    LinkedFrame@right(r, next);
    label left:
    next.parent := node.parent;
    SetBf(next, node.bf);
    LinkedFrame@left(l, next);
    LinkedFrame@left(r, next);
  }

  /** What is left of the subtree at `node` once its successor `next` replaced it. */
  ghost predicate Replaced<V>(next: AvlNode<V>, l: Tree<V>, nr: Tree<V>, c2: Ctx<V>, c: Ctx<V>, wasH: nat)
    reads Nodes(nr), CtxNodes(Over(c2, InRight(l, next, c)))
  {
    var d := Over(c2, InRight(l, next, c));
    Zip(nr, d) && Balanced(nr) && PathBalanced(d, wasH)
  }

  lemma {:induction false} OverDistinct<V>(c: Ctx<V>, base: Ctx<V>)
    requires PathDistinct(Over(c, base))
    ensures CtxNodes(c) !! CtxNodes(base) && PathDistinct(base)
    decreases c
  {
    if !c.Top? {
      OverDistinct(c.up, base);
      OverNodes(c.up, base);
    }
  }

  /** Between unlinking the successor and putting it in the place of `node`;
      `r` is the right subtree without the successor. */
  ghost predicate Gap<V>(node: AvlNode<V>, next: AvlNode<V>, l: Tree<V>, r: Tree<V>, c: Ctx<V>)
    reads node, next, Nodes(l), Nodes(r), CtxNodes(c)
  {
    && GapApart(node, next, l, r, c)
    && Path(c, node) && node.parent == Above(c) && node.left == Root(l) && Linked(l, node)
    && (node.right == next ==> next.right == Root(r) && Linked(r, next))
    && (node.right != next ==> node.right == Root(r) && Linked(r, node))
  }

  ghost predicate GapApart<V>(node: AvlNode<V>, next: AvlNode<V>, l: Tree<V>, r: Tree<V>, c: Ctx<V>) {
    && Distinct(l) && Distinct(r) && PathDistinct(c) && node != next
    && Nodes(l) !! Nodes(r) && Nodes(l) !! CtxNodes(c) && Nodes(r) !! CtxNodes(c)
    && node !in Nodes(l) && node !in Nodes(r) && node !in CtxNodes(c)
    && next !in Nodes(l) && next !in Nodes(r) && next !in CtxNodes(c)
  }

  lemma {:induction false} RootOnPath<V>(t: Tree<V>, c: Ctx<V>)
    requires !c.Top?
    ensures Root(Plug(t, c)) in CtxNodes(c)
    decreases c
  {
    if !c.up.Top? {
      RootOnPath(Up(t, c), c.up);
    }
  }

  lemma NextApart<V>(next: AvlNode<V>, nr: Tree<V>, c2: Ctx<V>, base: Ctx<V>)
    requires Zip(Node(Leaf, next, nr), Over(c2, base))
    ensures next !in Nodes(nr) && next !in CtxNodes(c2) && next !in CtxNodes(base)
    ensures Nodes(nr) !! CtxNodes(c2) && Nodes(nr) !! CtxNodes(base) && CtxNodes(c2) !! CtxNodes(base)
  {
    OverNodes(c2, base);
    OverDistinct(c2, base);
  }

  lemma ParentOfNext<V>(next: AvlNode<V>, nr: Tree<V>, c2: Ctx<V>, base: Ctx<V>)
    requires Zip(Node(Leaf, next, nr), Over(c2, base)) && base.InRight?
    ensures next.parent == base.n <==> c2.Top?
    ensures base.n.right == next <==> c2.Top?
    ensures !c2.Top? ==> next.parent == c2.n
  {
    NextApart(next, nr, c2, base);
    assert base.n in CtxNodes(base) && (!c2.Top? ==> c2.n in CtxNodes(c2));
    ZipOver(Node(Leaf, next, nr), c2, base);
    if !c2.Top? {
      RootOnPath(Node(Leaf, next, nr), c2);
    }
  }

  lemma OpenGap<V>(node: AvlNode<V>, next: AvlNode<V>, l: Tree<V>, nr: Tree<V>, c2: Ctx<V>, c: Ctx<V>)
    requires Zip(Node(Leaf, next, nr), Over(c2, InRight(l, node, c)))
    ensures GapApart(node, next, l, Plug(nr, c2), c)
  {
    var base := InRight(l, node, c);
    NextApart(next, nr, c2, base);
    PlugNodes(nr, c2);
    OverDistinct(c2, base);
    OverNodes(c2, base);
    PlugDistinct(nr, c2, base);
  }

  lemma {:induction false} PlugDistinct<V>(t: Tree<V>, c: Ctx<V>, base: Ctx<V>)
    requires Distinct(t) && PathDistinct(Over(c, base)) && Nodes(t) !! CtxNodes(Over(c, base))
    ensures Distinct(Plug(t, c))
    decreases c
  {
    if !c.Top? {
      PlugDistinct(Up(t, c), c.up, base);
    }
  }

  method UnlinkStage<V>(node: AvlNode<V>, next: AvlNode<V>,
                        ghost l: Tree<V>, ghost nr: Tree<V>, ghost c2: Ctx<V>, ghost c: Ctx<V>)
    requires Zip(Node(Leaf, next, nr), Over(c2, InRight(l, node, c))) && Leftmost(c2)
    modifies BelowTop(c2)`left, RootSet(nr)`parent
    ensures Gap(node, next, l, Plug(nr, c2), c)
  {
    OpenGap(node, next, l, nr, c2, c);
    ghost var base := InRight(l, node, c);
    ParentOfNext(next, nr, c2, base);
    if next.parent != node {
      UnlinkNext(next, next.parent, nr, Over(c2, base));
      ZipOver(nr, c2, base);
      assert Root(Plug(nr, c2)) != next by {
        RootAllocated(Plug(nr, c2));
      }
    }
  }

  method PlaceStage<V>(node: AvlNode<V>, next: AvlNode<V>, ghost l: Tree<V>, ghost r: Tree<V>, ghost c: Ctx<V>)
    requires Gap(node, next, l, r, c) && -1 <= node.bf <= 1
    modifies BelowTop(c)`left, BelowTop(c)`right, next, (RootSet(l) + RootSet(r))`parent
    ensures Zip(Node(l, next, r), c) && next.bf == node.bf
  {
    RootAllocated(l);
    RootAllocated(r);
    label before:
    ReplaceInParent(node, next, c);
    LinkedFrame@before(l, node);
    LinkedFrame@before(r, if node.right == next then next else node);
    label replaced:
    TakePlace(node, next, l, r);
    PathFrame@replaced(c, next);
  }

  /** The balance factors on the path stay right once `next` has the factor
      that `node` had; `h` is the height of the hole before the removal. */
  lemma ReplacedBalance<V>(next: AvlNode<V>, l: Tree<V>, c2: Ctx<V>, c: Ctx<V>, h: nat, hr: nat)
    requires Balanced(l) && PathBalanced(c2, h) && -1 <= next.bf <= 1 && hr == HeightAt(c2, h)
    requires next.bf == hr - H(l) && PathBalanced(c, 1 + Max(H(l), hr))
    ensures PathBalanced(Over(c2, InRight(l, next, c)), h)
  {
    PathBalancedOver(c2, InRight(l, next, c), h);
  }

  lemma ReplacedZip<V>(next: AvlNode<V>, l: Tree<V>, nr: Tree<V>, c2: Ctx<V>, c: Ctx<V>)
    requires Zip(Node(l, next, Plug(nr, c2)), c)
    ensures Zip(nr, Over(c2, InRight(l, next, c)))
  {
    ZipUp(Plug(nr, c2), InRight(l, next, c));
    ZipOver(nr, c2, InRight(l, next, c));
  }

  /** The two relinking stages of `avl_remove` when the node has a successor. */
  method DetachNext<V>(node: AvlNode<V>, next: AvlNode<V>,
                       ghost l: Tree<V>, ghost nr: Tree<V>, ghost c2: Ctx<V>, ghost c: Ctx<V>)
    requires Zip(Node(Leaf, next, nr), Over(c2, InRight(l, node, c))) && Leftmost(c2) && -1 <= node.bf <= 1
    modifies CtxNodes(c)`left, CtxNodes(c)`right, CtxNodes(c2)`left, CtxNodes(c2)`parent
    modifies Nodes(l)`parent, Nodes(nr)`parent, next
    ensures Zip(nr, Over(c2, InRight(l, next, c))) && next.bf == node.bf
    ensures GapApart(node, next, l, Plug(nr, c2), c)
  {
    PlugNodes(nr, c2);
    OpenGap(node, next, l, nr, c2, c);
    RootAllocated(l);
    RootAllocated(nr);
    RootAllocated(Plug(nr, c2));
    UnlinkStage(node, next, l, nr, c2, c);
    PlaceStage(node, next, l, Plug(nr, c2), c);
    ReplacedZip(next, l, nr, c2, c);
  }

  /** The same, with the balance factors. */
  method DetachBalanced<V>(node: AvlNode<V>, next: AvlNode<V>, ghost l: Tree<V>, ghost nr: Tree<V>,
                           ghost c2: Ctx<V>, ghost c: Ctx<V>, ghost h: nat, ghost hr: nat)
    requires Zip(Node(Leaf, next, nr), Over(c2, InRight(l, node, c))) && Leftmost(c2)
    requires Balanced(l) && Balanced(nr) && PathBalanced(c2, h) && PathBalanced(c, 1 + Max(H(l), hr))
    requires -1 <= node.bf <= 1 && node.bf == hr - H(l) && hr == HeightAt(c2, h)
    modifies CtxNodes(c), CtxNodes(c2), Nodes(l), Nodes(nr), next
    ensures Zip(nr, Over(c2, InRight(l, next, c)))
    ensures Balanced(nr) && PathBalanced(Over(c2, InRight(l, next, c)), h)
  {
    NextApart(next, nr, c2, InRight(l, node, c));
    assert allocated(Nodes(l)) && allocated(Nodes(nr)) && allocated(CtxNodes(c2)) && allocated(CtxNodes(c));
    DetachNext(node, next, l, nr, c2, c);
    ReplacedBalance(next, l, c2, c, h, hr);
  }

  // ----- the whole removal

  lemma Shuffle<T>(a: seq<T>, l: seq<T>, n: T, x: seq<T>, y: seq<T>, z: seq<T>)
    ensures a + (l + [n] + ([] + x + y)) + z == a + l + ([] + ([] + [n] + x) + y) + z
  {
  }

  /** The in-order sequence around a node, and what is left without it. */
  lemma NextInorder<V>(next: AvlNode<V>, l: Tree<V>, nr: Tree<V>, c2: Ctx<V>, c: Ctx<V>)
    requires Leftmost(c2)
    ensures var r := Plug(Node(Leaf, next, nr), c2);
            Inorder(Plug(nr, Over(c2, InRight(l, next, c)))) == Before(c) + Inorder(l) + Inorder(r) + After(c)
  {
    LeftmostBefore(c2);
    PlugInorder(Node(Leaf, next, nr), c2);
    PlugInorder(nr, c2);
    PlugOver(nr, c2, InRight(l, next, c));
    PlugInorder(Node(l, next, Plug(nr, c2)), c);
    Shuffle(Before(c), Inorder(l), next, Inorder(nr), After(c2), After(c));
  }

  lemma NextNodesAfter<V>(next: AvlNode<V>, l: Tree<V>, nr: Tree<V>, c2: Ctx<V>, c: Ctx<V>)
    ensures Nodes(Plug(nr, Over(c2, InRight(l, next, c))))
         == Nodes(nr) + CtxNodes(c2) + {next} + Nodes(l) + CtxNodes(c)
  {
    PlugNodes(nr, Over(c2, InRight(l, next, c)));
    OverNodes(c2, InRight(l, next, c));
  }

  lemma NextNodesBefore<V>(node: AvlNode<V>, next: AvlNode<V>, l: Tree<V>, nr: Tree<V>, c2: Ctx<V>, c: Ctx<V>)
    ensures Nodes(Plug(Node(l, node, Plug(Node(Leaf, next, nr), c2)), c))
         == Nodes(nr) + CtxNodes(c2) + {next} + {node} + Nodes(l) + CtxNodes(c)
  {
    PlugNodes(Node(Leaf, next, nr), c2);
    PlugNodes(Node(l, node, Plug(Node(Leaf, next, nr), c2)), c);
  }

  /** Opening the tree at the successor of `node`. */
  lemma OpenAtNext<V>(node: AvlNode<V>, l: Tree<V>, m: Tree<V>, c2: Ctx<V>, c: Ctx<V>)
    requires Zip(Node(l, node, Plug(m, c2)), c) && Balanced(Node(l, node, Plug(m, c2)))
    ensures Zip(m, Over(c2, InRight(l, node, c)))
    ensures Balanced(l) && Balanced(m) && PathBalanced(c2, H(m))
    ensures -1 <= node.bf <= 1 && node.bf == HeightAt(c2, H(m)) - H(l)
    ensures H(Node(l, node, Plug(m, c2))) == 1 + Max(H(l), HeightAt(c2, H(m)))
  {
    ZipUp(Plug(m, c2), InRight(l, node, c));
    ZipOver(m, c2, InRight(l, node, c));
    OpenBalanced(m, c2);
    PlugHeight(m, c2);
  }

  lemma NewRoot<V>(node: AvlNode<V>, next: AvlNode<V>, r: Tree<V>, l: Tree<V>, nr: Tree<V>, c2: Ctx<V>, c: Ctx<V>)
    requires node !in CtxNodes(c)
    ensures Root(Plug(nr, Over(c2, InRight(l, next, c))))
         == if Root(Plug(Node(l, node, r), c)) == node then next else Root(Plug(Node(l, node, r), c))
  {
    PlugOver(nr, c2, InRight(l, next, c));
    if !c.Top? {
      PlugRoot(Node(l, node, r), Node(l, next, Plug(nr, c2)), c);
      RootOnPath(Node(l, node, r), c);
    }
  }

  /** `avl_remove` up to its loop, when the node has a successor: where the loop
      starts (`cur`), and which side lost height (`bf`). */
  method StartWithNext<V>(root: AvlNode<V>, node: AvlNode<V>, next: AvlNode<V>, ghost l: Tree<V>, ghost nr: Tree<V>,
                          ghost c2: Ctx<V>, ghost c: Ctx<V>, ghost h: nat, ghost hr: nat)
    returns (newRoot: AvlNode<V>, cur: AvlNode<V>, bf: int)
    requires Zip(Node(Leaf, next, nr), Over(c2, InRight(l, node, c))) && Leftmost(c2)
    requires Balanced(l) && Balanced(nr) && PathBalanced(c2, h) && PathBalanced(c, 1 + Max(H(l), hr))
    requires -1 <= node.bf <= 1 && node.bf == hr - H(l) && hr == HeightAt(c2, h) && h == H(nr) + 1
    requires node !in CtxNodes(c) && root == Root(Plug(Node(l, node, Plug(Node(Leaf, next, nr), c2)), c))
    modifies CtxNodes(c), CtxNodes(c2), Nodes(l), Nodes(nr), next
    ensures var d := Over(c2, InRight(l, next, c));
            newRoot == Root(Plug(Up(nr, d), d.up)) && cur == d.n &&
            Climbing(Up(nr, d), d.up, UpHeight(d, h)) && Shrunk(Up(nr, d), cur.bf, bf, UpHeight(d, h))
  {
    ParentOfNext(next, nr, c2, InRight(l, node, c));
    if node.right != next {
      cur, bf := next.parent, 1;
    } else {
      cur, bf := next, -1;
    }
    DetachBalanced(node, next, l, nr, c2, c, h, hr);
    NewRoot(node, next, Plug(Node(Leaf, next, nr), c2), l, nr, c2, c);
    newRoot := if root == node then next else root;
    ShrinkUp(nr, Over(c2, InRight(l, next, c)), h);
  }

  method RemoveWithNext<V>(root: AvlNode<V>, node: AvlNode<V>, next: AvlNode<V>, ghost l: Tree<V>, ghost nr: Tree<V>,
                           ghost c2: Ctx<V>, ghost c: Ctx<V>, ghost h: nat, ghost hr: nat)
    returns (newRoot: AvlNode<V>, ghost tree: Tree<V>)
    requires Zip(Node(Leaf, next, nr), Over(c2, InRight(l, node, c))) && Leftmost(c2)
    requires Balanced(l) && Balanced(nr) && PathBalanced(c2, h) && PathBalanced(c, 1 + Max(H(l), hr))
    requires -1 <= node.bf <= 1 && node.bf == hr - H(l) && hr == HeightAt(c2, h) && h == H(nr) + 1
    requires node !in CtxNodes(c) && root == Root(Plug(Node(l, node, Plug(Node(Leaf, next, nr), c2)), c))
    modifies CtxNodes(c), CtxNodes(c2), Nodes(l), Nodes(nr), next
    ensures newRoot == Root(tree) && Linked(tree, null) && Distinct(tree) && Balanced(tree)
    ensures Inorder(tree) == Inorder(Plug(nr, Over(c2, InRight(l, next, c))))
    ensures Nodes(tree) == Nodes(Plug(nr, Over(c2, InRight(l, next, c))))
  {
    ghost var d := Over(c2, InRight(l, next, c));
    ghost var wasH := UpHeight(d, h);
    NextNodesAfter(next, l, nr, c2, c);
    var cur, bf;
    newRoot, cur, bf := StartWithNext(root, node, next, l, nr, c2, c, h, hr);
    newRoot, tree := ClimbRemove(newRoot, cur, bf, Up(nr, d), d.up, wasH);
  }

  /** `avl_remove` up to its loop, when the node has no right child: its left
      child takes its place. */
  method DetachNoNext<V>(node: AvlNode<V>, ghost l: Tree<V>, ghost c: Ctx<V>)
    requires Zip(Node(l, node, Leaf), c)
    modifies BelowTop(c)`left, BelowTop(c)`right, RootSet(l)`parent
    ensures Zip(l, c)
  {
    RootAllocated(l);
    label before:
    ReplaceInParent(node, node.left, c);
    label replaced:
    if node.left != null {
      node.left.parent := node.parent;
    }
    Reparented@before(l, node, node.parent);
    PathFrame@replaced(c, node.left);
  }

  method RemoveNoNext<V>(root: AvlNode<V>, node: AvlNode<V>, ghost l: Tree<V>, ghost c: Ctx<V>, ghost h: nat)
    returns (newRoot: AvlNode?<V>, ghost tree: Tree<V>)
    requires Zip(Node(l, node, Leaf), c) && Balanced(l) && PathBalanced(c, h) && h == H(l) + 1
    requires root == Root(Plug(Node(l, node, Leaf), c))
    modifies CtxNodes(c), Nodes(l)
    ensures newRoot == Root(tree) && Linked(tree, null) && Distinct(tree) && Balanced(tree)
    ensures Inorder(tree) == Inorder(Plug(l, c)) && Nodes(tree) == Nodes(Plug(l, c))
  {
    assert allocated(Nodes(l)) && allocated(CtxNodes(c));
    PlugNodes(l, c);
    var p, bf := node.parent, 0;
    if p != null {
      bf := if p.left == node then 1 else -1;
      ChildSide(Node(l, node, Leaf), c);
      NodeIsLeft(Node(l, node, Leaf), c);
      PlugRoot(Node(l, node, Leaf), l, c);
      RootOnPath(l, c);
    }
    DetachNoNext(node, l, c);
    newRoot := if root == node then node.left else root;
    if p != null {
      ShrinkUp(l, c, h);
      newRoot, tree := ClimbRemove(newRoot, p, bf, Up(l, c), c.up, UpHeight(c, h));
    } else {
      tree := l;
    }
  }

  lemma NodeIsLeft<V>(t: Tree<V>, c: Ctx<V>)
    requires t.Node? && !c.Top? && Zip(t, c)
    ensures c.n.left == t.n <==> c.InLeft?
  {
    if c.InRight? {
      assert c.l.Node? ==> c.l.n in CtxNodes(c);
      assert t.n in Nodes(t);
    }
  }
}
