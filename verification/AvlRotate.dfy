/** Rotations and rebalancing of one subtree (lib/avltree/avltree.c). */
module AvlRotate {
  import opened AvlShape

  /** `avl_set_bf`: the factor is stored as `bf + 1` in two bits of the parent word. */
  method SetBf<V>(node: AvlNode<V>, bf: int)
    requires -1 <= bf <= 1
    modifies node`bf
    ensures node.bf == bf
  {
    node.bf := bf;
  }

  /** Single right rotation: the left child becomes the root. */
  ghost function RotatedLL<V>(t: Tree<V>): Tree<V>
    requires t.Node? && t.l.Node?
  {
    Node(t.l.l, t.l.n, Node(t.l.r, t.n, t.r))
  }

  /** Single left rotation: the right child becomes the root. */
  ghost function RotatedRR<V>(t: Tree<V>): Tree<V>
    requires t.Node? && t.r.Node?
  {
    Node(Node(t.l, t.n, t.r.l), t.r.n, t.r.r)
  }

  lemma RegroupSets<T>(A: set<T>, c: T, B: set<T>, p: T, C: set<T>)
    ensures A + {c} + (B + {p} + C) == (A + {c} + B) + {p} + C
    ensures (p !in A + {c} + B && p !in C && A + {c} + B !! C && c !in A && c !in B && A !! B)
        <==> (c !in A && c !in B + {p} + C && A !! B + {p} + C && p !in B && p !in C && B !! C)
  {
    assert A + {c} + B !! C <==> A !! C && c !in C && B !! C;
    assert A !! B + {p} + C <==> A !! B && p !in A && A !! C;
  }

  lemma RotatedLLNodes<V>(t: Tree<V>)
    requires t.Node? && t.l.Node?
    ensures Nodes(RotatedLL(t)) == Nodes(t)
    ensures Distinct(t) ==> Distinct(RotatedLL(t))
  {
    RegroupSets(Nodes(t.l.l), t.l.n, Nodes(t.l.r), t.n, Nodes(t.r));
    assert Distinct(t) ==> Distinct(t.l);
  }

  lemma RotatedRRNodes<V>(t: Tree<V>)
    requires t.Node? && t.r.Node?
    ensures Nodes(RotatedRR(t)) == Nodes(t)
    ensures Distinct(t) ==> Distinct(RotatedRR(t))
  {
    RegroupSets(Nodes(t.l), t.n, Nodes(t.r.l), t.r.n, Nodes(t.r.r));
    assert Distinct(t) ==> Distinct(t.r);
  }

  lemma Reassociate<T>(a: seq<T>, m: T, b: seq<T>, n: T, c: seq<T>)
    ensures (a + [m] + b) + [n] + c == a + [m] + (b + [n] + c)
  {
  }

  lemma RotatedLLInorder<V>(t: Tree<V>)
    requires t.Node? && t.l.Node?
    ensures Inorder(RotatedLL(t)) == Inorder(t)
  {
    Reassociate(Inorder(t.l.l), t.l.n, Inorder(t.l.r), t.n, Inorder(t.r));
  }

  lemma RotatedRRInorder<V>(t: Tree<V>)
    requires t.Node? && t.r.Node?
    ensures Inorder(RotatedRR(t)) == Inorder(t)
  {
    Reassociate(Inorder(t.l), t.n, Inorder(t.r.l), t.r.n, Inorder(t.r.r));
  }

  /** The pointer half of `_rotate_LL`. */
  method LinkLL<V>(parent: AvlNode<V>, child: AvlNode<V>, ghost t: Tree<V>)
    requires t.Node? && t.l.Node? && t.n == parent && t.l.n == child
    requires Linked(t, parent.parent) && Distinct(t)
    modifies parent`left, parent`parent, child`right, child`parent, RootSet(t.l.r)`parent
    ensures Linked(RotatedLL(t), old(parent.parent))
  {
    parent.left := child.right;
    if child.right != null {
      child.right.parent := parent;
    }
    child.right := parent;
    child.parent := parent.parent;
    parent.parent := child;

    LinkedFrame(t.l.l, child);
    Reparented(t.l.r, child, parent);
    LinkedFrame(t.r, parent);
  }

  /** The pointer half of `_rotate_RR`. */
  method LinkRR<V>(parent: AvlNode<V>, child: AvlNode<V>, ghost t: Tree<V>)
    requires t.Node? && t.r.Node? && t.n == parent && t.r.n == child
    requires Linked(t, parent.parent) && Distinct(t)
    modifies parent`right, parent`parent, child`left, child`parent, RootSet(t.r.l)`parent
    ensures Linked(RotatedRR(t), old(parent.parent))
  {
    parent.right := child.left;
    if child.left != null {
      child.left.parent := parent;
    }
    child.left := parent;
    child.parent := parent.parent;
    parent.parent := child;

    LinkedFrame(t.l, parent);
    Reparented(t.r.l, child, parent);
    LinkedFrame(t.r.r, child);
  }

  method RotateLL<V>(parent: AvlNode<V>, parentBf: int, childBf: int, ghost t: Tree<V>)
    returns (child: AvlNode<V>, newChildBf: int, heightDelta: int)
    requires t.Node? && t.l.Node? && t.n == parent
    requires Linked(t, parent.parent) && Distinct(t)
    requires parentBf == Lean(t) && childBf == Lean(t.l)
    requires -1 <= H(t.r) - H(t.l.r) <= 1
    modifies parent, t.l.n`right, t.l.n`parent, RootSet(t.l.r)`parent
    ensures child == t.l.n && Linked(RotatedLL(t), old(parent.parent))
    ensures parent.bf == H(t.r) - H(t.l.r)
    ensures newChildBf == Lean(RotatedLL(t))
    ensures heightDelta == H(RotatedLL(t)) - H(t)
  {
    child := parent.left;
    var cLeft := if child.left != null then 1 else 0;
    var cRight := if child.right != null then 1 else 0;
    var pRight;
    if childBf < 0 {
      cLeft := cRight - childBf;
      pRight := cLeft + 1 + parentBf;
      heightDelta := Max(cLeft, Max(cRight, pRight) + 1) - (cLeft + 1);
    } else {
      cRight := cLeft + childBf;
      pRight := cRight + 1 + parentBf;
      heightDelta := Max(cLeft, Max(cRight, pRight) + 1) - (cRight + 1);
    }
    newChildBf := (Max(cRight, pRight) + 1) - cLeft;
    SetBf(parent, pRight - cRight);
    LinkedFrame(t, parent.parent);
    LinkLL(parent, child, t);
  }

  method RotateRR<V>(parent: AvlNode<V>, parentBf: int, childBf: int, ghost t: Tree<V>)
    returns (child: AvlNode<V>, newChildBf: int, heightDelta: int)
    requires t.Node? && t.r.Node? && t.n == parent
    requires Linked(t, parent.parent) && Distinct(t)
    requires parentBf == Lean(t) && childBf == Lean(t.r)
    requires -1 <= H(t.r.l) - H(t.l) <= 1
    modifies parent, t.r.n`left, t.r.n`parent, RootSet(t.r.l)`parent
    ensures child == t.r.n && Linked(RotatedRR(t), old(parent.parent))
    ensures parent.bf == H(t.r.l) - H(t.l)
    ensures newChildBf == Lean(RotatedRR(t))
    ensures heightDelta == H(RotatedRR(t)) - H(t)
  {
    child := parent.right;
    var cLeft := if child.left != null then 1 else 0;
    var cRight := if child.right != null then 1 else 0;
    var pLeft;
    if childBf < 0 {
      cLeft := cRight - childBf;
      pLeft := cLeft + 1 - parentBf;
      heightDelta := Max(cRight, Max(cLeft, pLeft) + 1) - (cLeft + 1);
    } else {
      cRight := cLeft + childBf;
      pLeft := cRight + 1 - parentBf;
      heightDelta := Max(cRight, Max(cLeft, pLeft) + 1) - (cRight + 1);
    }
    newChildBf := cRight - (Max(cLeft, pLeft) + 1);
    SetBf(parent, cLeft - pLeft);
    LinkedFrame(t, parent.parent);
    LinkRR(parent, child, t);
  }

  ghost predicate Flat<V>(t: Tree<V>) {
    t.Node? ==> -1 <= Lean(t) <= 1
  }

  ghost function RotatedLR<V>(t: Tree<V>): Tree<V>
    requires t.Node? && t.l.Node?
  {
    if t.l.r.Node? then RotatedLL(Node(RotatedRR(t.l), t.n, t.r)) else RotatedLL(t)
  }

  ghost function RotatedRL<V>(t: Tree<V>): Tree<V>
    requires t.Node? && t.r.Node?
  {
    if t.r.l.Node? then RotatedRR(Node(t.l, t.n, RotatedLL(t.r))) else RotatedRR(t)
  }

  /** The stored factors of the nodes that a double rotation moves. */
  ghost predicate TrueBf<V>(t: Tree<V>)
    reads RootSet(t)`bf
  {
    t.Node? ==> t.n.bf == Lean(t)
  }

  lemma UpperNodes<V>(t: Tree<V>)
    requires t.Node?
    ensures {t.n} + RootSet(t.l) + RootSet(t.r) <= Nodes(t)
    ensures t.l.Node? ==> RootSet(t.l.l) + RootSet(t.l.r) <= Nodes(t.l) <= Nodes(t)
    ensures t.r.Node? ==> RootSet(t.r.l) + RootSet(t.r.r) <= Nodes(t.r) <= Nodes(t)
  {
  }

  /** The first half of `_rotate_LR`: the left child is rotated to the left. */
  method RotateChildLR<V>(parent: AvlNode<V>, child: AvlNode<V>, ghost t: Tree<V>)
    returns (childBf: int, heightDelta: int)
    requires t.Node? && t.l.Node? && t.l.r.Node? && t.n == parent && t.l.n == child
    requires Linked(t, parent.parent) && Distinct(t) && TrueBf(t.l) && TrueBf(t.l.r)
    requires Flat(RotatedRR(t.l).l)
    modifies parent`left, child, t.l.r.n`left, t.l.r.n`parent, RootSet(t.l.r.l)`parent
    ensures Linked(Node(RotatedRR(t.l), t.n, t.r), old(parent.parent)) && Distinct(Node(RotatedRR(t.l), t.n, t.r))
    ensures parent.parent == old(parent.parent)
    ensures childBf == Lean(RotatedRR(t.l)) && heightDelta == H(RotatedRR(t.l)) - H(t.l)
    ensures TrueBf(RotatedRR(t.l).l)
  {
    UpperNodes(t.l);
    RotatedRRNodes(t.l);
    label before:
    var top;
    top, childBf, heightDelta := RotateRR(child, child.bf, child.right.bf, t.l);
    parent.left := top;
    LinkedFrame@before(t.r, parent);
  }

  method RotateLR<V>(parent: AvlNode<V>, parentBf: int, ghost t: Tree<V>) returns (ret: AvlNode<V>)
    requires t.Node? && t.l.Node? && t.n == parent
    requires Linked(t, parent.parent) && Distinct(t)
    requires parentBf == Lean(t) && TrueBf(t.l) && TrueBf(t.l.r)
    requires Flat(RotatedLR(t)) && Flat(RotatedLR(t).r) && (t.l.r.Node? ==> Flat(RotatedLR(t).l))
    modifies parent, t.l.n, RootSet(t.l.r)
    modifies (if t.l.r.Node? then RootSet(t.l.r.l) + RootSet(t.l.r.r) else {})`parent
    ensures ret == Root(RotatedLR(t)) && Linked(RotatedLR(t), old(parent.parent))
    ensures TrueBf(RotatedLR(t)) && TrueBf(RotatedLR(t).r) && (t.l.r.Node? ==> TrueBf(RotatedLR(t).l))
  {
    var childBf, heightDelta := 0, 0;
    var child := parent.left;
    ghost var up := parent.parent;
    ghost var s := t;
    if child.right != null {
      childBf, heightDelta := RotateChildLR(parent, child, t);
      s := Node(RotatedRR(t.l), t.n, t.r);
    } else {
      childBf := child.bf;
    }
    var d;
    ret, childBf, d := RotateLL(parent, parentBf - heightDelta, childBf, s);
    label linked:
    SetBf(ret, childBf);
    LinkedFrame@linked(RotatedLL(s), up);
  }

  /** The first half of `_rotate_RL`: the right child is rotated to the right. */
  method RotateChildRL<V>(parent: AvlNode<V>, child: AvlNode<V>, ghost t: Tree<V>)
    returns (childBf: int, heightDelta: int)
    requires t.Node? && t.r.Node? && t.r.l.Node? && t.n == parent && t.r.n == child
    requires Linked(t, parent.parent) && Distinct(t) && TrueBf(t.r) && TrueBf(t.r.l)
    requires Flat(RotatedLL(t.r).r)
    modifies parent`right, child, t.r.l.n`right, t.r.l.n`parent, RootSet(t.r.l.r)`parent
    ensures Linked(Node(t.l, t.n, RotatedLL(t.r)), old(parent.parent)) && Distinct(Node(t.l, t.n, RotatedLL(t.r)))
    ensures parent.parent == old(parent.parent)
    ensures childBf == Lean(RotatedLL(t.r)) && heightDelta == H(RotatedLL(t.r)) - H(t.r)
    ensures TrueBf(RotatedLL(t.r).r)
  {
    UpperNodes(t.r);
    RotatedLLNodes(t.r);
    label before:
    var top;
    top, childBf, heightDelta := RotateLL(child, child.bf, child.left.bf, t.r);
    parent.right := top;
    LinkedFrame@before(t.l, parent);
  }

  method RotateRL<V>(parent: AvlNode<V>, parentBf: int, ghost t: Tree<V>) returns (ret: AvlNode<V>)
    requires t.Node? && t.r.Node? && t.n == parent
    requires Linked(t, parent.parent) && Distinct(t)
    requires parentBf == Lean(t) && TrueBf(t.r) && TrueBf(t.r.l)
    requires Flat(RotatedRL(t)) && Flat(RotatedRL(t).l) && (t.r.l.Node? ==> Flat(RotatedRL(t).r))
    modifies parent, t.r.n, RootSet(t.r.l)
    modifies (if t.r.l.Node? then RootSet(t.r.l.l) + RootSet(t.r.l.r) else {})`parent
    ensures ret == Root(RotatedRL(t)) && Linked(RotatedRL(t), old(parent.parent))
    ensures TrueBf(RotatedRL(t)) && TrueBf(RotatedRL(t).l) && (t.r.l.Node? ==> TrueBf(RotatedRL(t).r))
  {
    var childBf, heightDelta := 0, 0;
    var child := parent.right;
    ghost var up := parent.parent;
    ghost var s := t;
    if child.left != null {
      childBf, heightDelta := RotateChildRL(parent, child, t);
      s := Node(t.l, t.n, RotatedLL(t.r));
    } else {
      childBf := child.bf;
    }
    var d;
    ret, childBf, d := RotateRR(parent, parentBf + heightDelta, childBf, s);
    label linked:
    SetBf(ret, childBf);
    LinkedFrame@linked(RotatedRR(s), up);
  }

  // ----- _balance_tree

  /** The shape `_balance_tree` leaves for a subtree that leans by at most two. */
  ghost function Rebalanced<V>(t: Tree<V>): Tree<V> {
    if t.Leaf? then t
    else if Lean(t) < -1 && t.l.Node? then
      if Lean(t.l) <= 0 then RotatedLL(t) else RotatedLR(t)
    else if Lean(t) > 1 && t.r.Node? then
      if Lean(t.r) >= 0 then RotatedRR(t) else RotatedRL(t)
    else t
  }

  lemma RebalancedNodes<V>(t: Tree<V>)
    requires Distinct(t)
    ensures Nodes(Rebalanced(t)) == Nodes(t) && Distinct(Rebalanced(t))
  {
    if t.Node? && Lean(t) < -1 && t.l.Node? {
      RotatedLLNodes(t);
      if t.l.r.Node? {
        RotatedRRNodes(t.l);
        RotatedLLNodes(Node(RotatedRR(t.l), t.n, t.r));
      }
    } else if t.Node? && Lean(t) > 1 && t.r.Node? {
      RotatedRRNodes(t);
      if t.r.l.Node? {
        RotatedLLNodes(t.r);
        RotatedRRNodes(Node(t.l, t.n, RotatedLL(t.r)));
      }
    }
  }

  lemma RebalancedInorder<V>(t: Tree<V>)
    ensures Inorder(Rebalanced(t)) == Inorder(t)
  {
    if t.Node? && Lean(t) < -1 && t.l.Node? {
      RotatedLLInorder(t);
      if t.l.r.Node? {
        RotatedRRInorder(t.l);
        RotatedLLInorder(Node(RotatedRR(t.l), t.n, t.r));
      }
    } else if t.Node? && Lean(t) > 1 && t.r.Node? {
      RotatedRRInorder(t);
      if t.r.l.Node? {
        RotatedLLInorder(t.r);
        RotatedRRInorder(Node(t.l, t.n, RotatedLL(t.r)));
      }
    }
  }

  /** Height-balanced, whatever the stored factors. */
  ghost predicate Even<V>(t: Tree<V>) {
    t.Node? ==> Flat(t) && Even(t.l) && Even(t.r)
  }

  /** How much lower the subtree gets: a rotation lowers it unless the higher
      child is itself level. */
  ghost function Drop<V>(t: Tree<V>): int
    requires t.Node?
  {
    if Lean(t) == -2 && t.l.Node? && Lean(t.l) != 0 then 1
    else if Lean(t) == 2 && t.r.Node? && Lean(t.r) != 0 then 1
    else 0
  }

  lemma {:induction false} LeftHeavyShape<V>(t: Tree<V>)
    requires t.Node? && Lean(t) == -2 && Even(t.l) && Even(t.r)
    ensures t.l.Node? && Even(Rebalanced(t)) && Rebalanced(t).Node?
    ensures H(Rebalanced(t)) == H(t) - Drop(t)
    ensures Lean(Rebalanced(t)) == if Drop(t) == 1 then 0 else 1
  {
    assert Flat(t.l) && Even(t.l.l) && Even(t.l.r);
    if Lean(t.l) <= 0 {
      var s := Node(t.l.r, t.n, t.r);
      assert Flat(s) && Even(s);
    } else {
      var s := t.l.r;
      assert s.Node? && Flat(s) && Even(s.l) && Even(s.r);
      var a, b := Node(t.l.l, t.l.n, s.l), Node(s.r, t.n, t.r);
      assert Rebalanced(t) == Node(a, s.n, b);
      assert Even(a) && Even(b);
    }
  }

  lemma {:induction false} RightHeavyShape<V>(t: Tree<V>)
    requires t.Node? && Lean(t) == 2 && Even(t.l) && Even(t.r)
    ensures t.r.Node? && Even(Rebalanced(t)) && Rebalanced(t).Node?
    ensures H(Rebalanced(t)) == H(t) - Drop(t)
    ensures Lean(Rebalanced(t)) == if Drop(t) == 1 then 0 else -1
  {
    assert Flat(t.r) && Even(t.r.l) && Even(t.r.r);
    if Lean(t.r) >= 0 {
      var s := Node(t.l, t.n, t.r.l);
      assert Flat(s) && Even(s);
    } else {
      var s := t.r.l;
      assert s.Node? && Flat(s) && Even(s.l) && Even(s.r);
      var a, b := Node(t.l, t.n, s.l), Node(s.r, t.r.n, t.r.r);
      assert Rebalanced(t) == Node(a, s.n, b);
      assert Even(a) && Even(b);
    }
  }

  lemma {:induction false} BalancedIsEven<V>(t: Tree<V>)
    requires Balanced(t)
    ensures Even(t)
    decreases t
  {
    if t.Node? {
      BalancedIsEven(t.l);
      BalancedIsEven(t.r);
    }
  }

  twostate lemma BalancedLLKept<V>(new t: Tree<V>)
    requires old(allocated(t)) && old(allocated(Nodes(t)))
    requires t.Node? && t.l.Node? && Distinct(t) && Even(RotatedLL(t))
    requires old(Balanced(t.l.l) && Balanced(t.l.r) && Balanced(t.r))
    requires TrueBf(RotatedLL(t)) && TrueBf(RotatedLL(t).r)
    requires SameBf(Nodes(t) - {t.n, t.l.n})
    ensures Balanced(RotatedLL(t))
  {
    assert Distinct(t.l) && Nodes(t.l.l) + Nodes(t.l.r) <= Nodes(t.l);
    BalancedFrame(t.l.l);
    BalancedFrame(t.l.r);
    BalancedFrame(t.r);
  }

  /** The single rotation of `_balance_tree` on the left. */
  method BalanceLL<V>(node: AvlNode<V>, heightDiff: int, ghost t: Tree<V>) returns (top: AvlNode<V>)
    requires t.Node? && t.l.Node? && node == t.n && heightDiff == Lean(t)
    requires Linked(t, node.parent) && Distinct(t) && Balanced(t.l) && Balanced(t.r)
    requires Even(RotatedLL(t))
    modifies node, t.l.n, RootSet(t.l.r)`parent
    ensures top == Root(RotatedLL(t)) && Balanced(RotatedLL(t))
    ensures Linked(RotatedLL(t), old(node.parent))
  {
    ghost var up := node.parent;
    var childBf := node.left.bf;
    var delta;
    label before:
    top, childBf, delta := RotateLL(node, heightDiff, childBf, t);
    label linked:
    SetBf(top, childBf);
    LinkedFrame@linked(RotatedLL(t), up);
    BalancedLLKept@before(t);
  }

  twostate lemma BalancedLRKept<V>(new t: Tree<V>)
    requires old(allocated(t)) && old(allocated(Nodes(t)))
    requires t.Node? && t.l.Node? && t.l.r.Node? && Distinct(t) && Even(RotatedLR(t))
    requires old(Balanced(t.l.l) && Balanced(t.l.r.l) && Balanced(t.l.r.r) && Balanced(t.r))
    requires TrueBf(RotatedLR(t)) && TrueBf(RotatedLR(t).l) && TrueBf(RotatedLR(t).r)
    requires SameBf(Nodes(t) - {t.n, t.l.n, t.l.r.n})
    ensures Balanced(RotatedLR(t))
  {
    assert Distinct(t.l) && Distinct(t.l.r);
    assert Nodes(t.l.r.l) + Nodes(t.l.r.r) <= Nodes(t.l.r) && Nodes(t.l.r) + Nodes(t.l.l) <= Nodes(t.l);
    BalancedFrame(t.l.l);
    BalancedFrame(t.l.r.l);
    BalancedFrame(t.l.r.r);
    BalancedFrame(t.r);
    assert Even(RotatedLR(t).l) && Even(RotatedLR(t).r);
  }

  /** The double rotation of `_balance_tree` on the left. */
  method BalanceLR<V>(node: AvlNode<V>, heightDiff: int, ghost t: Tree<V>) returns (top: AvlNode<V>)
    requires t.Node? && t.l.Node? && t.l.r.Node? && node == t.n && heightDiff == Lean(t)
    requires Linked(t, node.parent) && Distinct(t) && Balanced(t.l) && Balanced(t.r)
    requires Even(RotatedLR(t))
    modifies node, t.l.n, t.l.r.n
    modifies (RootSet(t.l.r.l) + RootSet(t.l.r.r))`parent
    ensures top == Root(RotatedLR(t)) && Balanced(RotatedLR(t))
    ensures Linked(RotatedLR(t), old(node.parent))
  {
    label before:
    assert Balanced(t.l.l) && Balanced(t.l.r) && Balanced(t.l.r.l) && Balanced(t.l.r.r);
    top := RotateLR(node, heightDiff, t);
    BalancedLRKept@before(t);
  }

  twostate lemma BalancedRRKept<V>(new t: Tree<V>)
    requires old(allocated(t)) && old(allocated(Nodes(t)))
    requires t.Node? && t.r.Node? && Distinct(t) && Even(RotatedRR(t))
    requires old(Balanced(t.r.l) && Balanced(t.r.r) && Balanced(t.l))
    requires TrueBf(RotatedRR(t)) && TrueBf(RotatedRR(t).l)
    requires SameBf(Nodes(t) - {t.n, t.r.n})
    ensures Balanced(RotatedRR(t))
  {
    assert Distinct(t.r) && Nodes(t.r.l) + Nodes(t.r.r) <= Nodes(t.r);
    BalancedFrame(t.r.l);
    BalancedFrame(t.r.r);
    BalancedFrame(t.l);
  }

  /** The single rotation of `_balance_tree` on the right. */
  method BalanceRR<V>(node: AvlNode<V>, heightDiff: int, ghost t: Tree<V>) returns (top: AvlNode<V>)
    requires t.Node? && t.r.Node? && node == t.n && heightDiff == Lean(t)
    requires Linked(t, node.parent) && Distinct(t) && Balanced(t.l) && Balanced(t.r)
    requires Even(RotatedRR(t))
    modifies node, t.r.n, RootSet(t.r.l)`parent
    ensures top == Root(RotatedRR(t)) && Balanced(RotatedRR(t))
    ensures Linked(RotatedRR(t), old(node.parent))
  {
    ghost var up := node.parent;
    var childBf := node.right.bf;
    var delta;
    label before:
    top, childBf, delta := RotateRR(node, heightDiff, childBf, t);
    label linked:
    SetBf(top, childBf);
    LinkedFrame@linked(RotatedRR(t), up);
    BalancedRRKept@before(t);
  }

  twostate lemma BalancedRLKept<V>(new t: Tree<V>)
    requires old(allocated(t)) && old(allocated(Nodes(t)))
    requires t.Node? && t.r.Node? && t.r.l.Node? && Distinct(t) && Even(RotatedRL(t))
    requires old(Balanced(t.r.r) && Balanced(t.r.l.l) && Balanced(t.r.l.r) && Balanced(t.l))
    requires TrueBf(RotatedRL(t)) && TrueBf(RotatedRL(t).l) && TrueBf(RotatedRL(t).r)
    requires SameBf(Nodes(t) - {t.n, t.r.n, t.r.l.n})
    ensures Balanced(RotatedRL(t))
  {
    assert Distinct(t.r) && Distinct(t.r.l);
    assert Nodes(t.r.l.l) + Nodes(t.r.l.r) <= Nodes(t.r.l) && Nodes(t.r.l) + Nodes(t.r.r) <= Nodes(t.r);
    BalancedFrame(t.r.r);
    BalancedFrame(t.r.l.l);
    BalancedFrame(t.r.l.r);
    BalancedFrame(t.l);
    assert Even(RotatedRL(t).l) && Even(RotatedRL(t).r);
  }

  /** The double rotation of `_balance_tree` on the right. */
  method BalanceRL<V>(node: AvlNode<V>, heightDiff: int, ghost t: Tree<V>) returns (top: AvlNode<V>)
    requires t.Node? && t.r.Node? && t.r.l.Node? && node == t.n && heightDiff == Lean(t)
    requires Linked(t, node.parent) && Distinct(t) && Balanced(t.l) && Balanced(t.r)
    requires Even(RotatedRL(t))
    modifies node, t.r.n, t.r.l.n
    modifies (RootSet(t.r.l.l) + RootSet(t.r.l.r))`parent
    ensures top == Root(RotatedRL(t)) && Balanced(RotatedRL(t))
    ensures Linked(RotatedRL(t), old(node.parent))
  {
    label before:
    assert Balanced(t.r.l) && Balanced(t.r.r) && Balanced(t.r.l.l) && Balanced(t.r.l.r);
    top := RotateRL(node, heightDiff, t);
    BalancedRLKept@before(t);
  }

  /** The branch of `_balance_tree` for a subtree that is too high on the left. */
  method BalanceLeft<V>(node: AvlNode<V>, heightDiff: int, ghost t: Tree<V>) returns (top: AvlNode<V>)
    requires t.Node? && node == t.n && heightDiff == Lean(t) == -2
    requires Linked(t, node.parent) && Distinct(t) && Balanced(t.l) && Balanced(t.r)
    modifies Nodes(t)
    ensures top == Root(Rebalanced(t)) && Balanced(Rebalanced(t))
    ensures Linked(Rebalanced(t), old(node.parent))
  {
    BalancedIsEven(t.l);
    BalancedIsEven(t.r);
    LeftHeavyShape(t);
    UpperNodes(t);
    UpperNodes(t.l);
    if node.left.bf <= 0 {
      top := BalanceLL(node, heightDiff, t);
    } else {
      top := BalanceLR(node, heightDiff, t);
    }
  }

  /** The branch of `_balance_tree` for a subtree that is too high on the right. */
  method BalanceRight<V>(node: AvlNode<V>, heightDiff: int, ghost t: Tree<V>) returns (top: AvlNode<V>)
    requires t.Node? && node == t.n && heightDiff == Lean(t) == 2
    requires Linked(t, node.parent) && Distinct(t) && Balanced(t.l) && Balanced(t.r)
    modifies Nodes(t)
    ensures top == Root(Rebalanced(t)) && Balanced(Rebalanced(t))
    ensures Linked(Rebalanced(t), old(node.parent))
  {
    BalancedIsEven(t.l);
    BalancedIsEven(t.r);
    RightHeavyShape(t);
    UpperNodes(t);
    UpperNodes(t.r);
    if node.right.bf >= 0 {
      top := BalanceRR(node, heightDiff, t);
    } else {
      top := BalanceRL(node, heightDiff, t);
    }
  }

  method BalanceTree<V>(node: AvlNode?<V>, bf: int, ghost t: Tree<V>) returns (top: AvlNode?<V>)
    requires node == Root(t)
    requires node != null ==> Linked(t, node.parent) && Distinct(t) && Balanced(t.l) && Balanced(t.r)
    requires node != null ==> node.bf + bf == Lean(t) && -2 <= Lean(t) <= 2
    modifies Nodes(t)
    ensures top == Root(Rebalanced(t)) && Balanced(Rebalanced(t))
    ensures node != null ==> Linked(Rebalanced(t), old(node.parent))
  {
    top := node;
    if node != null {
      var heightDiff := node.bf + bf;
      if heightDiff < -1 && node.left != null {
        top := BalanceLeft(node, heightDiff, t);
      } else if heightDiff > 1 && node.right != null {
        top := BalanceRight(node, heightDiff, t);
      } else {
        label before:
        SetBf(node, node.bf + bf);
        LinkedFrame@before(t, node.parent);
        BalancedFrame@before(t.l);
        BalancedFrame@before(t.r);
      }
    }
  }
}
