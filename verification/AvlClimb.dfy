/** The upward rebalancing loops of lib/avltree/avltree.c. */
module AvlClimb {
  import opened AvlShape
  import opened AvlRotate

  function Abs(n: int): nat {
    if n < 0 then -n else n
  }

  // ----- the parent balance factor computed by the two loops

  /** One child of `t` has just grown by one (`bf` says which side), or `t` is
      the new leaf itself (`bf == 0`); `wasH` is the height before. */
  ghost predicate Grown<V>(t: Tree<V>, stored: int, bf: int, wasH: nat)
    requires t.Node?
  {
    && -1 <= stored <= 1 && stored + bf == Lean(t) && Even(t.l) && Even(t.r)
    && (bf == 0 ==> t.l.Leaf? && t.r.Leaf? && wasH == 0)
    && (bf == -1 ==> t.l.Node? && wasH == 1 + Max(H(t.l) - 1, H(t.r)) && (Lean(t.l) == 0 ==> H(t.l) == 1))
    && (bf == 1 ==> t.r.Node? && wasH == 1 + Max(H(t.l), H(t.r) - 1) && (Lean(t.r) == 0 ==> H(t.r) == 1))
    && -1 <= bf <= 1
  }

  /** One child of `t` has just shrunk by one: the left if `bf == 1`. */
  ghost predicate Shrunk<V>(t: Tree<V>, stored: int, bf: int, wasH: nat)
    requires t.Node?
  {
    && -1 <= stored <= 1 && stored + bf == Lean(t) && Even(t.l) && Even(t.r)
    && (bf == 1 || bf == -1)
    && (bf == 1 ==> wasH == 1 + Max(H(t.l) + 1, H(t.r)))
    && (bf == -1 ==> wasH == 1 + Max(H(t.l), H(t.r) + 1))
  }

  /** The test of the insertion loop: pass the change on to the parent? */
  ghost predicate InsertCascades<V>(s: Tree<V>, bfOld: int)
    requires s.Node?
  {
    (s.l.Leaf? && s.r.Leaf?) || Abs(bfOld) < Abs(Lean(s))
  }

  ghost predicate RemoveCascades<V>(s: Tree<V>, bfOld: int)
    requires s.Node?
  {
    (s.l.Leaf? && s.r.Leaf?) || Abs(bfOld) > Abs(Lean(s))
  }

  /** The insertion loop goes on exactly when the rebalanced subtree is higher
      than the subtree was before the insertion. */
  lemma InsertStep<V>(t: Tree<V>, stored: int, bf: int, wasH: nat)
    requires t.Node? && Grown(t, stored, bf, wasH)
    ensures -2 <= Lean(t) <= 2 && Rebalanced(t).Node? && Even(Rebalanced(t))
    ensures H(Rebalanced(t)) == wasH + if InsertCascades(Rebalanced(t), stored) then 1 else 0
    ensures InsertCascades(Rebalanced(t), stored) && Lean(Rebalanced(t)) == 0 ==> H(Rebalanced(t)) == 1
  {
    if Lean(t) == -2 {
      LeftHeavyShape(t);
    } else if Lean(t) == 2 {
      RightHeavyShape(t);
    }
  }

  /** The removal loop goes on exactly when the rebalanced subtree is lower
      than the subtree was before the removal. */
  lemma RemoveStep<V>(t: Tree<V>, stored: int, bf: int, wasH: nat)
    requires t.Node? && Shrunk(t, stored, bf, wasH)
    ensures -2 <= Lean(t) <= 2 && Rebalanced(t).Node? && Even(Rebalanced(t))
    ensures wasH == H(Rebalanced(t)) + if RemoveCascades(Rebalanced(t), stored) then 1 else 0
  {
    if Lean(t) == -2 {
      LeftHeavyShape(t);
    } else if Lean(t) == 2 {
      RightHeavyShape(t);
    }
  }

  lemma {:induction false} PlugRoot<V>(t: Tree<V>, s: Tree<V>, c: Ctx<V>)
    requires !c.Top?
    ensures Plug(t, c).Node? && Root(Plug(t, c)) == Root(Plug(s, c))
    decreases c
  {
    match c
    case InLeft(n, r, up) => if !up.Top? { PlugRoot(Node(t, n, r), Node(s, n, r), up); }
    case InRight(l, n, up) => if !up.Top? { PlugRoot(Node(l, n, t), Node(l, n, s), up); }
  }

  lemma {:induction false} RootAllocated<V>(t: Tree<V>)
    ensures t.Node? ==> t.n in Nodes(t)
  {
  }

  /** Rebalances the subtree at `node` and stores its new root in the parent. */
  method Relink<V>(node: AvlNode<V>, bf: int, p: AvlNode<V>, ghost t: Tree<V>, ghost c: Ctx<V>, ghost wasH: nat)
    returns (top: AvlNode<V>)
    requires t.Node? && node == t.n && !c.Top? && p == c.n && Zip(t, c)
    requires Balanced(t.l) && Balanced(t.r) && PathBalanced(c, wasH)
    requires node.bf + bf == Lean(t) && -2 <= Lean(t) <= 2 && Rebalanced(t).Node?
    modifies Nodes(t), p`left, p`right
    ensures top == Root(Rebalanced(t)) && Balanced(Rebalanced(t))
    ensures Zip(Rebalanced(t), c) && PathBalanced(c, wasH)
  {
    RebalancedNodes(t);
    RootAllocated(t);
    label before:
    var isRight := p.right == node;
    ChildSide(t, c);
    top := BalanceTree(node, bf, t);
    PathFrame@before(c, node);
    PathBalancedFrame@before(c, wasH);
    AttachRoot(p, isRight, top, node, Rebalanced(t), c, wasH);
  }

  lemma ChildSide<V>(t: Tree<V>, c: Ctx<V>)
    requires t.Node? && !c.Top? && Zip(t, c)
    ensures c.n.right == t.n <==> c.InRight?
    ensures c.n !in Nodes(t) && t.n in Nodes(t)
  {
    if c.InLeft? {
      assert c.r.Node? ==> c.r.n in CtxNodes(c);
    }
  }

  method AttachRoot<V>(p: AvlNode<V>, isRight: bool, top: AvlNode?<V>, ghost was: AvlNode<V>,
                       ghost t: Tree<V>, ghost c: Ctx<V>, ghost wasH: nat)
    requires !c.Top? && p == c.n && top == Root(t) && isRight == c.InRight?
    requires Distinct(t) && PathDistinct(c) && Nodes(t) !! CtxNodes(c)
    requires Linked(t, p) && Path(c, was) && Balanced(t) && PathBalanced(c, wasH)
    modifies p`left, p`right
    ensures Zip(t, c) && Balanced(t) && PathBalanced(c, wasH)
  {
    label linked:
    if isRight {
      p.right := top;
    } else {
      p.left := top;
    }
    PathMoved@linked(t, c, was, top, wasH);
    BalancedFrame@linked(t);
  }

  /** Only the child pointer at the bottom of the path moved. */
  twostate lemma PathMoved<V>(new t: Tree<V>, new c: Ctx<V>, new was: AvlNode?<V>, new hole: AvlNode?<V>, wasH: nat)
    requires old(allocated(t)) && old(allocated(c)) && old(allocated(was)) && old(allocated(hole))
    requires old(allocated(Nodes(t))) && old(allocated(CtxNodes(c)))
    requires !c.Top? && PathDistinct(c) && Nodes(t) !! CtxNodes(c)
    requires old(Path(c, was)) && old(PathBalanced(c, wasH)) && old(Linked(t, c.n))
    requires SameLinks(Nodes(t)) && SameLinks(CtxNodes(c) - {c.n}) && SameBf(CtxNodes(c))
    requires c.n.parent == old(c.n.parent)
    requires c.InLeft? ==> c.n.right == old(c.n.right) && c.n.left == hole
    requires c.InRight? ==> c.n.left == old(c.n.left) && c.n.right == hole
    ensures Path(c, hole) && PathBalanced(c, wasH) && Linked(t, c.n)
  {
    LinkedFrame(t, c.n);
    PathBalancedFrame(c, wasH);
    LinkedFrame(if c.InLeft? then c.r else c.l, c.n);
    PathFrame(c.up, c.n);
  }

  // ----- one step up the path

  /** The subtree at the parent, once `s` hangs from it. */
  ghost function Up<V>(s: Tree<V>, c: Ctx<V>): Tree<V>
    requires !c.Top?
  {
    if c.InLeft? then Node(s, c.n, c.r) else Node(c.l, c.n, s)
  }

  lemma UpKeepsAll<V>(s: Tree<V>, c: Ctx<V>)
    requires !c.Top? && Zip(s, c)
    ensures Zip(Up(s, c), c.up) && Plug(Up(s, c), c.up) == Plug(s, c)
  {
  }

  lemma UpBalance<V>(s: Tree<V>, c: Ctx<V>, wasH: nat)
    requires !c.Top? && Balanced(s) && PathBalanced(c, wasH)
    ensures var t := Up(s, c);
            Balanced(t.l) && Balanced(t.r) && -1 <= t.n.bf <= 1 &&
            t.n.bf == (if c.InLeft? then H(c.r) - wasH else wasH - H(c.l)) &&
            PathBalanced(c.up, if c.InLeft? then 1 + Max(wasH, H(c.r)) else 1 + Max(H(c.l), wasH))
  {
  }

  /** Rebalancing a subtree changes neither the in-order sequence nor the root
      of the whole tree. */
  lemma RebalancedInPlace<V>(t: Tree<V>, c: Ctx<V>)
    requires Distinct(t)
    ensures Inorder(Plug(Rebalanced(t), c)) == Inorder(Plug(t, c))
    ensures Nodes(Plug(Rebalanced(t), c)) == Nodes(Plug(t, c))
    ensures !c.Top? ==> Root(Plug(Rebalanced(t), c)) == Root(Plug(t, c))
  {
    RebalancedInorder(t);
    RebalancedNodes(t);
    PlugInorder(t, c);
    PlugInorder(Rebalanced(t), c);
    PlugNodes(t, c);
    PlugNodes(Rebalanced(t), c);
    if !c.Top? {
      PlugRoot(t, Rebalanced(t), c);
    }
  }

  /** What the loops know between two steps: the subtree `t` at `node` hangs in
      its place, and only its own balance factor is out of date. */
  ghost predicate Climbing<V>(t: Tree<V>, c: Ctx<V>, wasH: nat)
    reads Nodes(t), CtxNodes(c)
  {
    t.Node? && Zip(t, c) && Balanced(t.l) && Balanced(t.r) && PathBalanced(c, wasH)
  }

  /** A subtree that is balanced again, below a path that still remembers `wasH`. */
  ghost predicate Settled<V>(s: Tree<V>, c: Ctx<V>, wasH: nat)
    reads Nodes(s), CtxNodes(c)
  {
    s.Node? && Zip(s, c) && Balanced(s) && PathBalanced(c, wasH)
  }

  ghost function UpHeight<V>(c: Ctx<V>, wasH: nat): nat
    requires !c.Top?
  {
    if c.InLeft? then 1 + Max(wasH, H(c.r)) else 1 + Max(H(c.l), wasH)
  }

  lemma Finish<V>(s: Tree<V>, c: Ctx<V>)
    requires Settled(s, c, H(s))
    ensures Linked(Plug(s, c), null) && Distinct(Plug(s, c)) && Balanced(Plug(s, c))
  {
    ZipToTree(s, c);
    PlugBalanced(s, c);
  }

  /** The subtree at the parent is in the state that the insertion loop expects. */
  lemma GrowUp<V>(s: Tree<V>, c: Ctx<V>, wasH: nat)
    requires !c.Top? && Settled(s, c, wasH) && H(s) == wasH + 1 && (Lean(s) == 0 ==> H(s) == 1)
    ensures Climbing(Up(s, c), c.up, UpHeight(c, wasH))
    ensures Grown(Up(s, c), c.n.bf, if c.InLeft? then -1 else 1, UpHeight(c, wasH))
  {
    hide *;
    var t := Up(s, c);
    UpShape(s, c, wasH);
    SettledIs(s, c, wasH);
    ClimbUp(s, c, wasH);
    UpBalance(s, c, wasH);
    BalancedIsEven(t.l);
    BalancedIsEven(t.r);
    GrownAt(t, c.n.bf, if c.InLeft? then -1 else 1, UpHeight(c, wasH));
  }

  lemma UpShape<V>(s: Tree<V>, c: Ctx<V>, wasH: nat)
    requires !c.Top?
    ensures var t := Up(s, c);
            t.Node? && t.n == c.n && if c.InLeft? then t.l == s && t.r == c.r else t.l == c.l && t.r == s
    ensures UpHeight(c, wasH) == if c.InLeft? then 1 + Max(wasH, H(c.r)) else 1 + Max(H(c.l), wasH)
  {
  }

  lemma SettledIs<V>(s: Tree<V>, c: Ctx<V>, wasH: nat)
    requires Settled(s, c, wasH)
    ensures s.Node? && Zip(s, c) && Balanced(s) && PathBalanced(c, wasH)
  {
  }

  lemma GrownAt<V>(t: Tree<V>, stored: int, bf: int, wasH: nat)
    requires t.Node? && Even(t.l) && Even(t.r) && -1 <= stored <= 1 && (bf == -1 || bf == 1)
    requires bf == -1 ==> t.l.Node? && stored == H(t.r) - (H(t.l) - 1) && wasH == 1 + Max(H(t.l) - 1, H(t.r))
    requires bf == -1 ==> Lean(t.l) != 0 || H(t.l) == 1
    requires bf == 1 ==> t.r.Node? && stored == (H(t.r) - 1) - H(t.l) && wasH == 1 + Max(H(t.l), H(t.r) - 1)
    requires bf == 1 ==> Lean(t.r) != 0 || H(t.r) == 1
    ensures Grown(t, stored, bf, wasH)
  {
    hide Even;
    hide H;
  }

  lemma ClimbUp<V>(s: Tree<V>, c: Ctx<V>, wasH: nat)
    requires !c.Top? && Zip(s, c) && Balanced(s) && PathBalanced(c, wasH)
    ensures Climbing(Up(s, c), c.up, UpHeight(c, wasH))
  {
    UpKeepsAll(s, c);
    UpBalance(s, c, wasH);
    hide Zip;
    hide Plug;
    hide PathBalanced;
    hide Balanced;
  }

  lemma ShrinkUp<V>(s: Tree<V>, c: Ctx<V>, wasH: nat)
    requires !c.Top? && Zip(s, c) && Balanced(s) && PathBalanced(c, wasH) && wasH == H(s) + 1
    ensures Climbing(Up(s, c), c.up, UpHeight(c, wasH))
    ensures Shrunk(Up(s, c), c.n.bf, if c.InLeft? then 1 else -1, UpHeight(c, wasH))
  {
    ClimbUp(s, c, wasH);
    UpBalance(s, c, wasH);
    BalancedIsEven(Up(s, c).l);
    BalancedIsEven(Up(s, c).r);
    hide Zip;
    hide Climbing;
    hide PathBalanced;
    hide Balanced;
    hide Even;
  }

  /** One step of the insertion loop below a parent `p`. */
  method InsertStepUp<V>(node: AvlNode<V>, bf: int, p: AvlNode<V>, ghost t: Tree<V>, ghost c: Ctx<V>, ghost wasH: nat)
    returns (top: AvlNode<V>, newBf: int)
    requires Climbing(t, c, wasH) && node == t.n && !c.Top? && p == c.n && Grown(t, node.bf, bf, wasH)
    modifies Nodes(t), p`left, p`right
    ensures top == Root(Rebalanced(t)) && Settled(Rebalanced(t), c, wasH)
    ensures newBf == 0 ==> H(Rebalanced(t)) == wasH
    ensures newBf != 0 ==> newBf == (if c.InLeft? then -1 else 1)
    ensures newBf != 0 ==> H(Rebalanced(t)) == wasH + 1 && (Lean(Rebalanced(t)) == 0 ==> H(Rebalanced(t)) == 1)
  {
    InsertStep(t, node.bf, bf, wasH);
    var bfOld := node.bf;
    top := Relink(node, bf, p, t, c, wasH);
    ChildSide(Rebalanced(t), c);
    if top.left == null && top.right == null {
      newBf := if p.left == top then -1 else 1;
    } else {
      newBf := 0;
      if Abs(bfOld) < Abs(top.bf) {
        newBf := if p.left == top then -1 else 1;
      }
    }
  }

  /** One step of the removal loop below a parent `p`. */
  method RemoveStepUp<V>(node: AvlNode<V>, bf: int, p: AvlNode<V>, ghost t: Tree<V>, ghost c: Ctx<V>, ghost wasH: nat)
    returns (top: AvlNode<V>, newBf: int)
    requires Climbing(t, c, wasH) && node == t.n && !c.Top? && p == c.n && Shrunk(t, node.bf, bf, wasH)
    modifies Nodes(t), p`left, p`right
    ensures top == Root(Rebalanced(t)) && Settled(Rebalanced(t), c, wasH)
    ensures newBf == 0 ==> H(Rebalanced(t)) == wasH
    ensures newBf != 0 ==> newBf == (if c.InLeft? then 1 else -1)
    ensures newBf != 0 ==> H(Rebalanced(t)) + 1 == wasH
  {
    RemoveStep(t, node.bf, bf, wasH);
    var bfOld := node.bf;
    top := Relink(node, bf, p, t, c, wasH);
    ChildSide(Rebalanced(t), c);
    if top.left == null && top.right == null {
      newBf := if p.left == top then 1 else -1;
    } else {
      newBf := 0;
      if Abs(bfOld) > Abs(top.bf) {
        newBf := if p.left == top then 1 else -1;
      }
    }
  }

  /** The upward loop of `avl_insert`, from the new leaf `start`. */
  method ClimbInsert<V>(root: AvlNode<V>, start: AvlNode<V>, ghost t0: Tree<V>, ghost c0: Ctx<V>)
    returns (newRoot: AvlNode<V>, ghost tree: Tree<V>)
    requires t0 == Node(Leaf, start, Leaf) && start.bf == 0
    requires Climbing(t0, c0, 0) && root == Root(Plug(t0, c0))
    modifies Nodes(Plug(t0, c0))
    ensures newRoot == Root(tree) && Linked(tree, null) && Distinct(tree) && Balanced(tree)
    ensures Inorder(tree) == Inorder(Plug(t0, c0)) && Nodes(tree) == Nodes(Plug(t0, c0))
  {
    var node: AvlNode?<V> := start;
    var bf := 0;
    newRoot := root;
    ghost var t, c, wasH := t0, c0, 0;
    tree := Leaf;
    while node != null
      invariant Climbing(t, c, wasH) && node == t.n && Grown(t, node.bf, bf, wasH)
      invariant newRoot == Root(Plug(t, c))
      invariant Inorder(Plug(t, c)) == Inorder(Plug(t0, c0)) && Nodes(Plug(t, c)) == Nodes(Plug(t0, c0))
      decreases c
    {
      ghost var s := Rebalanced(t);
      RebalancedInPlace(t, c);
      PlugNodes(t, c);
      var p := node.parent;
      if p != null {
        node, bf := InsertStepUp(node, bf, p, t, c, wasH);
      } else if node == newRoot {
        InsertStep(t, node.bf, bf, wasH);
        RebalancedNodes(t);
        newRoot := BalanceTree(newRoot, bf, t);
        tree := s;
        break;
      }
      if bf == 0 {
        Finish(s, c);
        tree := Plug(s, c);
        break;
      }
      GrowUp(s, c, wasH);
      UpKeepsAll(s, c);
      t, c, wasH := Up(s, c), c.up, UpHeight(c, wasH);
      node := p;
    }
  }

  /** The upward loop of `avl_remove`, from the lowest node that lost height. */
  method ClimbRemove<V>(root: AvlNode<V>, start: AvlNode<V>, bf0: int,
                        ghost t0: Tree<V>, ghost c0: Ctx<V>, ghost wasH0: nat)
    returns (newRoot: AvlNode<V>, ghost tree: Tree<V>)
    requires Climbing(t0, c0, wasH0) && start == t0.n && Shrunk(t0, start.bf, bf0, wasH0)
    requires root == Root(Plug(t0, c0))
    modifies Nodes(Plug(t0, c0))
    ensures newRoot == Root(tree) && Linked(tree, null) && Distinct(tree) && Balanced(tree)
    ensures Inorder(tree) == Inorder(Plug(t0, c0)) && Nodes(tree) == Nodes(Plug(t0, c0))
  {
    var cur: AvlNode?<V> := start;
    var bf := bf0;
    newRoot := root;
    ghost var t, c, wasH := t0, c0, wasH0;
    tree := Leaf;
    while cur != null
      invariant Climbing(t, c, wasH) && cur == t.n && Shrunk(t, cur.bf, bf, wasH)
      invariant newRoot == Root(Plug(t, c))
      invariant Inorder(Plug(t, c)) == Inorder(Plug(t0, c0)) && Nodes(Plug(t, c)) == Nodes(Plug(t0, c0))
      decreases c
    {
      ghost var s := Rebalanced(t);
      RebalancedInPlace(t, c);
      PlugNodes(t, c);
      var p := cur.parent;
      if p != null {
        cur, bf := RemoveStepUp(cur, bf, p, t, c, wasH);
      } else if cur == newRoot {
        RemoveStep(t, cur.bf, bf, wasH);
        RebalancedNodes(t);
        newRoot := BalanceTree(newRoot, bf, t);
        tree := s;
        break;
      }
      if bf == 0 {
        Finish(s, c);
        tree := Plug(s, c);
        break;
      }
      ShrinkUp(s, c, wasH);
      UpKeepsAll(s, c);
      t, c, wasH := Up(s, c), c.up, UpHeight(c, wasH);
      cur := p;
    }
  }
}
