/** The pointer structure of lib/avltree: nodes, the tree they form, and a
    zipper (a subtree together with the path above it). Trees and zippers are
    ghost values; `Linked`, `Path` and `Balanced` tie them to the heap. */
module AvlShape {

  /** An intrusive `avl_node` together with the `memory_wrapper` around it.
      The two low bits of the parent word are the separate field `bf`. */
  class AvlNode<V> {
    const key: nat
    const value: V
    var parent: AvlNode?<V>
    var left: AvlNode?<V>
    var right: AvlNode?<V>
    var bf: int

    constructor (key: nat, value: V)
      ensures this.key == key && this.value == value
    {
      this.key := key;
      this.value := value;
      parent, left, right, bf := null, null, null, 0;
    }
  }

  datatype Tree<V> = Leaf | Node(l: Tree<V>, n: AvlNode<V>, r: Tree<V>)

  ghost function Nodes<V>(t: Tree<V>): set<AvlNode<V>> {
    match t
    case Leaf => {}
    case Node(l, n, r) => Nodes(l) + {n} + Nodes(r)
  }

  ghost function Inorder<V>(t: Tree<V>): seq<AvlNode<V>> {
    match t
    case Leaf => []
    case Node(l, n, r) => Inorder(l) + [n] + Inorder(r)
  }

  ghost function Root<V>(t: Tree<V>): AvlNode?<V> {
    if t.Leaf? then null else t.n
  }

  ghost function RootSet<V>(t: Tree<V>): set<AvlNode<V>> {
    if t.Leaf? then {} else {t.n}
  }

  function Max(a: int, b: int): int {
    if a > b then a else b
  }

  ghost function H<V>(t: Tree<V>): nat {
    match t
    case Leaf => 0
    case Node(l, _, r) => 1 + Max(H(l), H(r))
  }

  /** Height of the right subtree minus height of the left one. */
  ghost function Lean<V>(t: Tree<V>): int
    requires t.Node?
  {
    H(t.r) - H(t.l)
  }

  ghost predicate Distinct<V>(t: Tree<V>) {
    match t
    case Leaf => true
    case Node(l, n, r) =>
      n !in Nodes(l) && n !in Nodes(r) && Nodes(l) !! Nodes(r) && Distinct(l) && Distinct(r)
  }

  /** The child and parent pointers spell out exactly this tree, hanging from `up`. */
  ghost predicate Linked<V>(t: Tree<V>, up: AvlNode?<V>)
    reads Nodes(t)`left, Nodes(t)`right, Nodes(t)`parent
  {
    match t
    case Leaf => true
    case Node(l, n, r) =>
      n.parent == up && n.left == Root(l) && n.right == Root(r) && Linked(l, n) && Linked(r, n)
  }

  /** Every stored balance factor is the true height difference, and at most one. */
  ghost predicate Balanced<V>(t: Tree<V>)
    reads Nodes(t)`bf
  {
    match t
    case Leaf => true
    case Node(l, n, r) =>
      n.bf == H(r) - H(l) && -1 <= n.bf <= 1 && Balanced(l) && Balanced(r)
  }

  ghost predicate Sorted<V>(s: seq<AvlNode<V>>) {
    forall i, j :: 0 <= i < j < |s| ==> s[i].key < s[j].key
  }

  // ----- the path above a subtree

  datatype Ctx<V> =
    | Top
    | InLeft(n: AvlNode<V>, r: Tree<V>, up: Ctx<V>)
    | InRight(l: Tree<V>, n: AvlNode<V>, up: Ctx<V>)

  ghost function Plug<V>(t: Tree<V>, c: Ctx<V>): Tree<V>
    decreases c
  {
    match c
    case Top => t
    case InLeft(n, r, up) => Plug(Node(t, n, r), up)
    case InRight(l, n, up) => Plug(Node(l, n, t), up)
  }

  ghost function Above<V>(c: Ctx<V>): AvlNode?<V> {
    if c.Top? then null else c.n
  }

  ghost function CtxNodes<V>(c: Ctx<V>): set<AvlNode<V>> {
    match c
    case Top => {}
    case InLeft(n, r, up) => {n} + Nodes(r) + CtxNodes(up)
    case InRight(l, n, up) => {n} + Nodes(l) + CtxNodes(up)
  }

  /** The nodes that come before (after) the hole, in order. */
  ghost function Before<V>(c: Ctx<V>): seq<AvlNode<V>> {
    match c
    case Top => []
    case InLeft(_, _, up) => Before(up)
    case InRight(l, n, up) => Before(up) + Inorder(l) + [n]
  }

  ghost function After<V>(c: Ctx<V>): seq<AvlNode<V>> {
    match c
    case Top => []
    case InLeft(n, r, up) => [n] + Inorder(r) + After(up)
    case InRight(_, _, up) => After(up)
  }

  /** The pointers on the path are right for a hole whose root is `hole`;
      the topmost node of the path hangs from `top`. */
  ghost predicate Path<V>(c: Ctx<V>, hole: AvlNode?<V>)
    reads CtxNodes(c)`left, CtxNodes(c)`right, CtxNodes(c)`parent
  {
    match c
    case Top => true
    case InLeft(n, r, up) =>
      n.left == hole && n.right == Root(r) && n.parent == Above(up) && Linked(r, n) && Path(up, n)
    case InRight(l, n, up) =>
      n.right == hole && n.left == Root(l) && n.parent == Above(up) && Linked(l, n) && Path(up, n)
  }

  ghost predicate PathDistinct<V>(c: Ctx<V>) {
    match c
    case Top => true
    case InLeft(n, r, up) =>
      n !in Nodes(r) && n !in CtxNodes(up) && Nodes(r) !! CtxNodes(up) && Distinct(r) && PathDistinct(up)
    case InRight(l, n, up) =>
      n !in Nodes(l) && n !in CtxNodes(up) && Nodes(l) !! CtxNodes(up) && Distinct(l) && PathDistinct(up)
  }

  /** The balance factors on the path are right for a hole of height `h`. */
  ghost predicate PathBalanced<V>(c: Ctx<V>, h: nat)
    reads CtxNodes(c)`bf
  {
    match c
    case Top => true
    case InLeft(n, r, up) =>
      n.bf == H(r) - h && -1 <= n.bf <= 1 && Balanced(r) && PathBalanced(up, 1 + Max(h, H(r)))
    case InRight(l, n, up) =>
      n.bf == h - H(l) && -1 <= n.bf <= 1 && Balanced(l) && PathBalanced(up, 1 + Max(H(l), h))
  }

  /** A subtree and its path make up one well-linked tree. */
  ghost predicate Zip<V>(t: Tree<V>, c: Ctx<V>)
    reads Nodes(t)`left, Nodes(t)`right, Nodes(t)`parent
    reads CtxNodes(c)`left, CtxNodes(c)`right, CtxNodes(c)`parent
  {
    && Distinct(t) && PathDistinct(c) && Nodes(t) !! CtxNodes(c)
    && Linked(t, Above(c)) && Path(c, Root(t))
  }

  // ----- moving up and down

  lemma {:induction false} PlugNodes<V>(t: Tree<V>, c: Ctx<V>)
    ensures Nodes(Plug(t, c)) == Nodes(t) + CtxNodes(c)
    decreases c
  {
    match c
    case Top =>
    case InLeft(n, r, up) => PlugNodes(Node(t, n, r), up);
    case InRight(l, n, up) => PlugNodes(Node(l, n, t), up);
  }

  lemma {:induction false} PlugInorder<V>(t: Tree<V>, c: Ctx<V>)
    ensures Inorder(Plug(t, c)) == Before(c) + Inorder(t) + After(c)
    decreases c
  {
    match c
    case Top =>
    case InLeft(n, r, up) =>
      PlugInorder(Node(t, n, r), up);
      Regroup(Before(up), Inorder(t), [n] + Inorder(r), After(up));
      assert Inorder(t) + ([n] + Inorder(r)) == Inorder(Node(t, n, r));
    case InRight(l, n, up) =>
      PlugInorder(Node(l, n, t), up);
      Regroup(Before(up), Inorder(l) + [n], Inorder(t), After(up));
      assert Before(up) + (Inorder(l) + [n]) == Before(c);
  }

  lemma Regroup<T>(a: seq<T>, b: seq<T>, c: seq<T>, d: seq<T>)
    ensures a + (b + c) + d == a + b + (c + d)
    ensures a + (b + c) + d == (a + b) + c + d
  {
  }

  /** Closing a zipper gives one well-linked tree. */
  lemma {:induction false} ZipToTree<V>(t: Tree<V>, c: Ctx<V>)
    requires Zip(t, c)
    ensures Linked(Plug(t, c), null) && Distinct(Plug(t, c))
    decreases c
  {
    match c
    case Top =>
    case InLeft(n, r, up) => ZipToTree(Node(t, n, r), up);
    case InRight(l, n, up) => ZipToTree(Node(l, n, t), up);
  }

  lemma {:induction false} PlugBalanced<V>(t: Tree<V>, c: Ctx<V>)
    requires Balanced(t) && PathBalanced(c, H(t))
    ensures Balanced(Plug(t, c))
    decreases c
  {
    match c
    case Top =>
    case InLeft(n, r, up) => PlugBalanced(Node(t, n, r), up);
    case InRight(l, n, up) => PlugBalanced(Node(l, n, t), up);
  }

  /** Opening a zipper at any node of the tree. */
  lemma {:induction false} Locate<V>(t: Tree<V>, c: Ctx<V>, x: AvlNode<V>) returns (s: Tree<V>, d: Ctx<V>)
    requires Zip(t, c) && x in Nodes(t) && Balanced(t) && PathBalanced(c, H(t))
    ensures Zip(s, d) && s.Node? && s.n == x && Plug(s, d) == Plug(t, c)
    ensures Balanced(s) && PathBalanced(d, H(s))
    decreases t
  {
    if x == t.n {
      s, d := t, c;
    } else if x in Nodes(t.l) {
      s, d := Locate(t.l, InLeft(t.n, t.r, c), x);
    } else {
      s, d := Locate(t.r, InRight(t.l, t.n, c), x);
    }
  }

  lemma {:induction false} NodesInorder<V>(t: Tree<V>, x: AvlNode<V>)
    ensures x in Nodes(t) <==> x in Inorder(t)
    decreases t
  {
    match t
    case Leaf =>
    case Node(l, n, r) => NodesInorder(l, x); NodesInorder(r, x);
  }

  // ----- what a heap update leaves alone

  twostate predicate SameLinks<V>(new s: set<AvlNode<V>>)
    requires old(allocated(s))
    reads s`left, s`right, s`parent
  {
    forall n :: n in s ==> n.left == old(n.left) && n.right == old(n.right) && n.parent == old(n.parent)
  }

  twostate predicate SameBf<V>(new s: set<AvlNode<V>>)
    requires old(allocated(s))
    reads s`bf
  {
    forall n :: n in s ==> n.bf == old(n.bf)
  }

  twostate lemma {:induction false} LinkedFrame<V>(new t: Tree<V>, new up: AvlNode?<V>)
    requires old(allocated(t)) && old(allocated(up)) && old(allocated(Nodes(t)))
    requires old(Linked(t, up)) && SameLinks(Nodes(t))
    ensures Linked(t, up)
    decreases t
  {
    match t
    case Leaf =>
    case Node(l, n, r) => LinkedFrame(l, n); LinkedFrame(r, n);
  }

  /** Only the parent pointer of the root moved. */
  twostate lemma Reparented<V>(new t: Tree<V>, new was: AvlNode?<V>, new up: AvlNode?<V>)
    requires old(allocated(t)) && old(allocated(was)) && old(allocated(Nodes(t)))
    requires old(Linked(t, was)) && Distinct(t) && SameLinks(Nodes(t) - RootSet(t))
    requires t.Node? ==> t.n.parent == up && t.n.left == old(t.n.left) && t.n.right == old(t.n.right)
    ensures Linked(t, up)
  {
    if t.Node? {
      LinkedFrame(t.l, t.n);
      LinkedFrame(t.r, t.n);
    }
  }

  twostate lemma {:induction false} BalancedFrame<V>(new t: Tree<V>)
    requires old(allocated(t)) && old(allocated(Nodes(t)))
    requires old(Balanced(t)) && SameBf(Nodes(t))
    ensures Balanced(t)
    decreases t
  {
    match t
    case Leaf =>
    case Node(l, n, r) => BalancedFrame(l); BalancedFrame(r);
  }

  twostate lemma {:induction false} PathFrame<V>(new c: Ctx<V>, new hole: AvlNode?<V>)
    requires old(allocated(c)) && old(allocated(hole)) && old(allocated(CtxNodes(c)))
    requires old(Path(c, hole)) && SameLinks(CtxNodes(c))
    ensures Path(c, hole)
    decreases c
  {
    match c
    case Top =>
    case InLeft(n, r, up) => LinkedFrame(r, n); PathFrame(up, n);
    case InRight(l, n, up) => LinkedFrame(l, n); PathFrame(up, n);
  }

  twostate lemma {:induction false} PathBalancedFrame<V>(new c: Ctx<V>, h: nat)
    requires old(allocated(c)) && old(allocated(CtxNodes(c)))
    requires old(PathBalanced(c, h)) && SameBf(CtxNodes(c))
    ensures PathBalanced(c, h)
    decreases c
  {
    match c
    case Top =>
    case InLeft(n, r, up) => BalancedFrame(r); PathBalancedFrame(up, 1 + Max(h, H(r)));
    case InRight(l, n, up) => BalancedFrame(l); PathBalancedFrame(up, 1 + Max(H(l), h));
  }

  // ----- the height bound

  function Fib(k: nat): nat {
    if k < 2 then k else Fib(k - 1) + Fib(k - 2)
  }

  lemma {:induction false} FibGrows(k: nat)
    ensures Fib(k) <= Fib(k + 1)
  {
    if k >= 2 {
      FibGrows(k - 1);
      FibGrows(k - 2);
    }
  }

  lemma {:induction false} FibMonotone(j: nat, k: nat)
    requires j <= k
    ensures Fib(j) <= Fib(k)
    decreases k
  {
    if j < k {
      FibMonotone(j, k - 1);
      FibGrows(k - 1);
    }
  }

  lemma FibSum(a: nat, b: nat, m: nat, n: nat)
    requires -1 <= b - a <= 1 && Fib(a + 2) <= m && Fib(b + 2) <= n
    ensures Fib(1 + Max(a, b) + 2) <= m + n
  {
    var h := 1 + Max(a, b);
    FibMonotone(h, a + 2);
    FibMonotone(h, b + 2);
    assert Fib(h + 2) == Fib(h + 1) + Fib(h);
  }

  /** A balanced tree of height h has at least Fib(h + 2) - 1 nodes. */
  lemma {:induction false} HeightBound<V>(t: Tree<V>)
    requires Balanced(t)
    ensures Fib(H(t) + 2) <= |Inorder(t)| + 1
    decreases t
  {
    match t
    case Leaf =>
    case Node(l, n, r) =>
      HeightBound(l);
      HeightBound(r);
      FibSum(H(l), H(r), |Inorder(l)| + 1, |Inorder(r)| + 1);
  }
}
