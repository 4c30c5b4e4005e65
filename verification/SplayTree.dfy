/** Top-down splay trees of core/btree.h on linked nodes. */
module SplayTree {
  import opened TreeShapes

  // The SPLAY_ENTRY fields of an element, and the key its comparison function looks at.
  class SPNode {
    const key: int
    var left: SPNode?
    var right: SPNode?

    constructor (key: int)
      ensures this.key == key
    {
      this.key := key;
      left, right := null, null;
    }
  }

  type Shape = Tree<SPNode, ()>
  type Hole = Ctx<SPNode, ()>

  function RootOf(t: Shape): SPNode? { if t.T? then t.n else null }

  predicate Sorted(s: seq<SPNode>) {
    forall i, j :: 0 <= i < j < |s| ==> s[i].key < s[j].key
  }

  ghost predicate Linked(t: Shape, root: SPNode?)
    reads Nodes(t)
  {
    match t
    case E => root == null
    case T(l, n, _, r) =>
      && root == n && Linked(l, n.left) && Linked(r, n.right)
      && n !in Nodes(l) && n !in Nodes(r) && Nodes(l) !! Nodes(r)
  }

  // The node whose right (left) link is the hole of the tree of smaller (larger) keys
  // taken off so far: the stack node of the splay loop, or the last node linked.
  function Tip(x: Hole, stack: SPNode): SPNode {
    if x.Top? then stack else x.n
  }

  // The tree of smaller keys hangs from the right link of the stack node; its hole is the
  // right link of its rightmost node.  What that link holds meanwhile does not matter.
  ghost predicate Smaller(x: Hole, stack: SPNode)
    reads stack`right, CtxNodes(x)
  {
    match x
    case Top => true
    case InLeft(_, _, _, _) => false
    case InRight(up, l, n, _) =>
      && Linked(l, n.left) && (if up.Top? then stack else up.n).right == n && Smaller(up, stack)
      && n !in Nodes(l) && n !in CtxNodes(up) && Nodes(l) !! CtxNodes(up)
  }

  ghost predicate Larger(z: Hole, stack: SPNode)
    reads stack`left, CtxNodes(z)
  {
    match z
    case Top => true
    case InRight(_, _, _, _) => false
    case InLeft(up, n, _, r) =>
      && Linked(r, n.right) && (if up.Top? then stack else up.n).left == n && Larger(up, stack)
      && n !in Nodes(r) && n !in CtxNodes(up) && Nodes(r) !! CtxNodes(up)
  }

  lemma {:induction false} ZipSmaller(x: Hole, t: Shape, stack: SPNode)
    requires Smaller(x, stack) && Linked(t, Tip(x, stack).right) && Nodes(t) !! CtxNodes(x)
    ensures Linked(Plug(x, t), stack.right)
    decreases x
  {
    if !x.Top? {
      assert Smaller(x.up, stack);
      ZipSmaller(x.up, Wrap(x, t), stack);
    }
  }

  lemma {:induction false} ZipLarger(z: Hole, t: Shape, stack: SPNode)
    requires Larger(z, stack) && Linked(t, Tip(z, stack).left) && Nodes(t) !! CtxNodes(z)
    ensures Linked(Plug(z, t), stack.left)
    decreases z
  {
    if !z.Top? {
      assert Larger(z.up, stack);
      ZipLarger(z.up, Wrap(z, t), stack);
    }
  }

  lemma {:induction false} OneSided(x: Hole, stack: SPNode)
    ensures Smaller(x, stack) ==> After(x) == []
    ensures Larger(x, stack) ==> Before(x) == []
  {
    if !x.Top? { OneSided(x.up, stack); }
  }

  // All nodes, while the splay loop has them in three trees.
  function Total(x: Hole, t: Shape, z: Hole): seq<SPNode> {
    Before(x) + Elems(t) + After(z)
  }

  predicate AllBelow(s: seq<SPNode>, k: int) { forall n :: n in s ==> n.key < k }
  predicate AllAbove(s: seq<SPNode>, k: int) { forall n :: n in s ==> k < n.key }

  // The root has key k, or else is the neighbour of k on one side or the other.
  predicate Around(t: Shape, k: int) {
    t.T? && AllBelow(Elems(t.l), k) && AllAbove(Elems(t.r), k)
  }

  predicate Parts(x: Hole, t: Shape, z: Hole, k: int) {
    Sorted(Total(x, t, z)) && AllBelow(Before(x), k) && AllAbove(After(z), k)
  }

  lemma TotalStart(t: Shape)
    ensures Total(Top, t, Top) == Elems(t)
  {
    assert [] + Elems(t) + [] == Elems(t);
  }

  lemma TurnTotal(x: Hole, t: Shape, z: Hole)
    requires t.T?
    ensures t.l.T? ==> Total(x, TurnRight(t), z) == Total(x, t, z)
    ensures t.l.T? ==> Size(TurnRight(t)) == Size(t) && Nodes(TurnRight(t)) == Nodes(t)
    ensures t.r.T? ==> Total(x, TurnLeft(t), z) == Total(x, t, z)
    ensures t.r.T? ==> Size(TurnLeft(t)) == Size(t) && Nodes(TurnLeft(t)) == Nodes(t)
  {
    ElemsNodes(t);
    if t.l.T? { TurnRightElems(t); ElemsNodes(TurnRight(t)); }
    if t.r.T? { TurnLeftElems(t); ElemsNodes(TurnLeft(t)); }
  }

  lemma SortedSides(a: seq<SPNode>, e: SPNode, b: seq<SPNode>)
    requires Sorted(a + [e] + b)
    ensures AllBelow(a, e.key) && AllAbove(b, e.key)
  {
    var s := a + [e] + b;
    assert s[|a|] == e;
    forall n | n in a ensures n.key < e.key {
      var i :| 0 <= i < |a| && a[i] == n;
      assert s[i] == n;
    }
    forall n | n in b ensures e.key < n.key {
      var i :| 0 <= i < |b| && b[i] == n;
      assert s[|a| + 1 + i] == n;
    }
  }

  lemma TotalSplit(x: Hole, t: Shape, z: Hole)
    requires t.T?
    ensures Total(x, t, z) == (Before(x) + Elems(t.l)) + [t.n] + (Elems(t.r) + After(z))
    ensures Total(x, t, z) == Total(x, t.l, HoleLeft(z, t))
    ensures Total(x, t, z) == Total(HoleRight(x, t), t.r, z)
  {
    var b, l, r, a := Before(x), Elems(t.l), Elems(t.r), After(z);
    Lists.Assoc(l, [t.n], r);
    Lists.Assoc(b, l, [t.n] + r);
    Lists.Assoc(b + l, [t.n], r);
    Lists.Assoc(b + l, [t.n] + r, a);
    Lists.Assoc(b + l, [t.n], r + a);
    Lists.Assoc([t.n], r, a);
    Lists.Assoc((b + l) + [t.n], r, a);
  }

  // The rotation of a zig-zig step.
  function ZigLeft(t: Shape, k: int): (u: Shape)
    requires t.T?
    ensures u.T?
  {
    if t.l.T? && k < t.l.n.key then TurnRight(t) else t
  }

  function ZigRight(t: Shape, k: int): (u: Shape)
    requires t.T?
    ensures u.T?
  {
    if t.r.T? && k > t.r.n.key then TurnLeft(t) else t
  }

  lemma GoLeftParts(x: Hole, t: Shape, z: Hole, k: int)
    requires Parts(x, t, z, k) && t.T? && k < t.n.key
    ensures var u := ZigLeft(t, k);
      && k < u.n.key && Nodes(u) == Nodes(t) && Size(u) == Size(t) && Total(x, u, z) == Total(x, t, z)
      && Parts(x, u.l, HoleLeft(z, u), k) && Total(x, u.l, HoleLeft(z, u)) == Total(x, t, z)
  {
    TurnTotal(x, t, z);
    var u := ZigLeft(t, k);
    TotalSplit(x, u, z);
    SortedSides(Before(x) + Elems(u.l), u.n, Elems(u.r) + After(z));
    Lists.Assoc([u.n], Elems(u.r), After(z));
  }

  lemma GoRightParts(x: Hole, t: Shape, z: Hole, k: int)
    requires Parts(x, t, z, k) && t.T? && k > t.n.key
    ensures var u := ZigRight(t, k);
      && k > u.n.key && Nodes(u) == Nodes(t) && Size(u) == Size(t) && Total(x, u, z) == Total(x, t, z)
      && Parts(HoleRight(x, u), u.r, z, k) && Total(HoleRight(x, u), u.r, z) == Total(x, t, z)
  {
    TurnTotal(x, t, z);
    var u := ZigRight(t, k);
    TotalSplit(x, u, z);
    SortedSides(Before(x) + Elems(u.l), u.n, Elems(u.r) + After(z));
  }

  // SPLAY_MINMAX rotates on every pass.
  function EdgeTurnLeft(t: Shape): (u: Shape)
    requires t.T?
    ensures u.T?
  {
    if t.l.T? then TurnRight(t) else t
  }

  function EdgeTurnRight(t: Shape): (u: Shape)
    requires t.T?
    ensures u.T?
  {
    if t.r.T? then TurnLeft(t) else t
  }

  lemma EdgeTotal(x: Hole, t: Shape, z: Hole)
    requires t.T?
    ensures var u := EdgeTurnLeft(t);
      Size(u) == Size(t) && Total(x, u, z) == Total(x, t, z) == Total(x, u.l, HoleLeft(z, u))
    ensures var u := EdgeTurnRight(t);
      Size(u) == Size(t) && Total(x, u, z) == Total(x, t, z) == Total(HoleRight(x, u), u.r, z)
  {
    TurnTotal(x, t, z);
    TotalSplit(x, EdgeTurnLeft(t), z);
    TotalSplit(x, EdgeTurnRight(t), z);
  }

  // The assembled tree has the nodes in the old order.
  lemma AssembledTotal(x: Hole, t: Shape, z: Hole, stack: SPNode)
    requires t.T? && Smaller(x, stack) && Larger(z, stack)
    ensures var u := T(Plug(x, t.l), t.n, (), Plug(z, t.r));
      && Elems(u) == Total(x, t, z)
      && Elems(u.l) == Before(x) + Elems(t.l) && Elems(u.r) == Elems(t.r) + After(z)
  {
    OneSided(x, stack);
    OneSided(z, stack);
    PlugElems(x, t.l);
    PlugElems(z, t.r);
    TotalSplit(x, t, z);
    assert Before(x) + Elems(t.l) + [] == Before(x) + Elems(t.l);
    assert [] + Elems(t.r) + After(z) == Elems(t.r) + After(z);
  }

  // Where the splay loop stops, the assembled tree has k at its root or next to it.
  lemma AssembledElems(x: Hole, t: Shape, z: Hole, k: int, stack: SPNode)
    requires t.T? && Parts(x, t, z, k) && Smaller(x, stack) && Larger(z, stack)
    requires t.n.key == k || (k < t.n.key && t.l.E?) || (k > t.n.key && t.r.E?)
    ensures var u := T(Plug(x, t.l), t.n, (), Plug(z, t.r));
      Elems(u) == Total(x, t, z) && Around(u, k)
  {
    AssembledTotal(x, t, z, stack);
    TotalSplit(x, t, z);
    SortedSides(Before(x) + Elems(t.l), t.n, Elems(t.r) + After(z));
  }

  // A key that is not at the root after splaying is not in the tree.
  lemma RootOrNeighbour(t: Shape, k: int)
    requires Around(t, k)
    ensures t.n in Nodes(t) && (t.n.key != k ==> forall n :: n in Nodes(t) ==> n.key != k)
  {
    ElemsNodes(t.l);
    ElemsNodes(t.r);
    forall n | n in Nodes(t) && n != t.n
      ensures n.key != k
    {
      InToSet(Elems(t.l), n);
      InToSet(Elems(t.r), n);
    }
  }

  lemma InsertedLeft(t: Shape, e: SPNode)
    requires Around(t, e.key) && Sorted(Elems(t)) && e.key < t.n.key
    ensures Sorted(Elems(T(t.l, e, (), T(E, t.n, (), t.r))))
  {
    var a, b := Elems(t.l), Elems(t.r);
    Lists.Assoc(a, [t.n], b);
    SortedParts(a, [t.n] + b);
    assert Elems(T(E, t.n, (), t.r)) == [t.n] + b by { assert [] + [t.n] == [t.n]; }
    JoinSorted(a, e, [t.n] + b);
  }

  lemma InsertedRight(t: Shape, e: SPNode)
    requires Around(t, e.key) && Sorted(Elems(t)) && e.key > t.n.key
    ensures Sorted(Elems(T(T(t.l, t.n, (), E), e, (), t.r)))
  {
    var a, b := Elems(t.l), Elems(t.r);
    SortedParts(a + [t.n], b);
    assert Elems(T(t.l, t.n, (), E)) == a + [t.n] by { assert a + [t.n] + [] == a + [t.n]; }
    JoinSorted(a + [t.n], e, b);
  }

  lemma SortedParts(a: seq<SPNode>, b: seq<SPNode>)
    requires Sorted(a + b)
    ensures Sorted(a) && Sorted(b)
  {
    forall i, j | 0 <= i < j < |a| ensures a[i].key < a[j].key {
      assert (a + b)[i] == a[i] && (a + b)[j] == a[j];
    }
    forall i, j | 0 <= i < j < |b| ensures b[i].key < b[j].key {
      assert (a + b)[|a| + i] == b[i] && (a + b)[|a| + j] == b[j];
    }
  }

  lemma JoinSorted(a: seq<SPNode>, e: SPNode, b: seq<SPNode>)
    requires Sorted(a) && Sorted(b) && AllBelow(a, e.key) && AllAbove(b, e.key)
    ensures Sorted(a + [e] + b)
  {
    var s := a + [e] + b;
    forall i, j | 0 <= i < j < |s| ensures s[i].key < s[j].key {
      assert i < |a| ==> s[i] in a;
      assert j > |a| ==> s[j] in b;
    }
  }

  lemma RemovedElems(t: Shape)
    requires t.T? && Sorted(Elems(t))
    ensures Sorted(Elems(t.l)) && Sorted(Elems(t.r))
    ensures Nodes(t.l) == ToSet(Elems(t.l)) && Nodes(t.r) == ToSet(Elems(t.r))
    ensures AllBelow(Elems(t.l), t.n.key) && AllAbove(Elems(t.r), t.n.key)
  {
    SortedParts(Elems(t.l) + [t.n], Elems(t.r));
    SortedParts(Elems(t.l), [t.n]);
    SortedSides(Elems(t.l), t.n, Elems(t.r));
    ElemsNodes(t.l);
    ElemsNodes(t.r);
  }

  // The key step of the removal.
  lemma NoRightChild(u: Shape, l: Shape, k: int)
    requires Around(u, k) && Elems(u) == Elems(l) && AllBelow(Elems(l), k)
    ensures u.r == E
  {
    TailIn(Elems(u.l) + [u.n], Elems(u.r));
    ElemsNodes(u.r);
  }

  lemma TailIn(a: seq<SPNode>, b: seq<SPNode>)
    ensures forall n :: n in b ==> n in a + b
    ensures b != [] ==> b[0] in b
  {
  }

  lemma RejoinedElems(u: Shape, t: Shape)
    requires t.T? && Sorted(Elems(t)) && u.T? && u.r == E && Elems(u) == Elems(t.l)
    ensures var j := T(u.l, u.n, (), t.r);
      && Elems(j) == Elems(t.l) + Elems(t.r) && Sorted(Elems(j)) && Nodes(j) == Nodes(t.l) + Nodes(t.r)
      && Nodes(u) == Nodes(t.l) && Nodes(u.l) <= Nodes(u)
  {
    var j := T(u.l, u.n, (), t.r);
    assert Elems(u.l) + [u.n] + [] == Elems(u.l) + [u.n];
    SameNodes(u, t.l);
    RemovedElems(t);
    var s := Elems(t.l) + Elems(t.r);
    forall i, k | 0 <= i < k < |s| ensures s[i].key < s[k].key {
      assert i < |Elems(t.l)| ==> s[i] in Elems(t.l);
      assert k >= |Elems(t.l)| ==> s[k] in Elems(t.r);
    }
  }

  // After splaying for the key of a node of the tree, that node is the root.
  lemma MemberRoot(t: Shape, e: SPNode)
    requires e in Nodes(t)
    ensures t.T? && (Around(t, e.key) ==> t.n == e)
  {
    if t.T? && Around(t, e.key) {
      ElemsNodes(t.l);
      ElemsNodes(t.r);
      InToSet(Elems(t.l), e);
      InToSet(Elems(t.r), e);
    }
  }

  lemma FollowedBy(a: seq<SPNode>, e: SPNode, b: seq<SPNode>, i: nat)
    requires Sorted(a + [e] + b) && i < |a + [e] + b| && (a + [e] + b)[i] == e
    ensures (if i + 1 < |a + [e] + b| then (a + [e] + b)[i + 1] else null) == if b == [] then null else b[0]
  {
    assert (a + [e] + b)[|a|] == e;
  }

  class SPHead {
    var root: SPNode?
    ghost var shape: Shape
    ghost var repr: set<SPNode>

    constructor ()
      ensures Valid() && repr == {}
    {
      root := null;
      shape := E;
      repr := {};
    }

    ghost predicate Valid()
      reads this, Nodes(shape)
    {
      Linked(shape, root) && Sorted(Elems(shape)) && repr == Nodes(shape)
    }

    // The nodes in key order.
    ghost function Contents(): seq<SPNode>
      reads this`shape
    {
      Elems(shape)
    }

    // In the splay loop: the tree still to be searched and the two trees taken off it.
    ghost predicate Split(x: Hole, t: Shape, z: Hole, stack: SPNode)
      reads this`root, this`repr, stack, CtxNodes(x), Nodes(t), CtxNodes(z)
    {
      && Linked(t, root) && Smaller(x, stack) && Larger(z, stack)
      && Nodes(t) !! CtxNodes(x) && Nodes(t) !! CtxNodes(z) && CtxNodes(x) !! CtxNodes(z)
      && Nodes(t) + CtxNodes(x) + CtxNodes(z) <= repr && stack !in repr
    }

    // SPLAY_ROTATE_RIGHT
    method RotateRight(tmp: SPNode, ghost x: Hole, ghost t: Shape, ghost z: Hole, ghost stack: SPNode)
      requires Split(x, t, z, stack) && t.T? && t.l.T? && t.l.n == tmp
      modifies this`root, Nodes(t)
      ensures Split(x, TurnRight(t), z, stack)
    {
      assert Linked(t.l, root.left);
      root.left := tmp.right;
      tmp.right := root;
      root := tmp;
      assert Linked(TurnRight(t).r, tmp.right);
    }

    // SPLAY_LINKLEFT: the root and its right subtree go to the larger keys.
    method LinkLeft(right: SPNode, ghost x: Hole, ghost t: Shape, ghost z: Hole, ghost stack: SPNode)
      returns (tmp: SPNode)
      requires Split(x, t, z, stack) && t.T? && right == Tip(z, stack)
      modifies this`root, right`left
      ensures repr == old(repr)
      ensures Split(x, t.l, HoleLeft(z, t), stack) && tmp == t.n
    {
      hide Smaller;
      assert CtxNodes(HoleLeft(z, t)) == CtxNodes(z) + {t.n} + Nodes(t.r);
      HangLarger(right, t, z, stack);
      tmp := root;
      root := root.left;
    }

    method HangLarger(right: SPNode, ghost t: Shape, ghost z: Hole, ghost stack: SPNode)
      requires Linked(t, root) && t.T? && Larger(z, stack) && right == Tip(z, stack)
      requires Nodes(t) !! CtxNodes(z) && Nodes(t) + CtxNodes(z) <= repr && stack !in repr
      modifies right`left
      ensures root == old(root) && repr == old(repr)
      ensures Linked(t, root) && Larger(HoleLeft(z, t), stack)
    {
      assert !z.Top? ==> Larger(z.up, stack) && Linked(z.r, z.n.right);
      right.left := root;
      assert Larger(z, stack);
    }

    // SPLAY_ROTATE_LEFT
    method RotateLeft(tmp: SPNode, ghost x: Hole, ghost t: Shape, ghost z: Hole, ghost stack: SPNode)
      requires Split(x, t, z, stack) && t.T? && t.r.T? && t.r.n == tmp
      modifies this`root, Nodes(t)
      ensures Split(x, TurnLeft(t), z, stack)
    {
      assert Linked(t.r, root.right);
      root.right := tmp.left;
      tmp.left := root;
      root := tmp;
      assert Linked(TurnLeft(t).l, tmp.left);
    }

    // SPLAY_LINKRIGHT: the root and its left subtree go to the smaller keys.
    method LinkRight(left: SPNode, ghost x: Hole, ghost t: Shape, ghost z: Hole, ghost stack: SPNode)
      returns (tmp: SPNode)
      requires Split(x, t, z, stack) && t.T? && left == Tip(x, stack)
      modifies this`root, left`right
      ensures repr == old(repr)
      ensures Split(HoleRight(x, t), t.r, z, stack) && tmp == t.n
    {
      hide Larger;
      HangSmaller(left, t, x, stack);
      tmp := root;
      root := root.right;
    }

    method HangSmaller(left: SPNode, ghost t: Shape, ghost x: Hole, ghost stack: SPNode)
      requires Linked(t, root) && t.T? && Smaller(x, stack) && left == Tip(x, stack)
      requires Nodes(t) !! CtxNodes(x) && Nodes(t) + CtxNodes(x) <= repr && stack !in repr
      modifies left`right
      ensures root == old(root) && repr == old(repr)
      ensures Linked(t, root) && Smaller(HoleRight(x, t), stack)
    {
      assert !x.Top? ==> Smaller(x.up, stack) && Linked(x.l, x.n.left);
      left.right := root;
      assert Smaller(x, stack);
    }

    // SPLAY_ASSEMBLE
    method Assemble(node: SPNode, left: SPNode, right: SPNode, ghost x: Hole, ghost t: Shape, ghost z: Hole)
      requires Split(x, t, z, node) && t.T? && left == Tip(x, node) && right == Tip(z, node)
      modifies left, right, root
      ensures Linked(T(Plug(x, t.l), t.n, (), Plug(z, t.r)), root)
    {
      FillHoles(left, right, x, t, z, node);
      PlugNodes(x, t.l);
      PlugNodes(z, t.r);
      root.left := node.right;
      root.right := node.left;
    }

    method FillHoles(left: SPNode, right: SPNode, ghost x: Hole, ghost t: Shape, ghost z: Hole, ghost stack: SPNode)
      requires Split(x, t, z, stack) && t.T? && left == Tip(x, stack) && right == Tip(z, stack)
      modifies left`right, right`left
      ensures Linked(Plug(x, t.l), stack.right) && Linked(Plug(z, t.r), stack.left)
    {
      hide Smaller, Larger, Plug;
      assert Linked(t.l, root.left) && Linked(t.r, root.right);
      PlugNodes(x, t.l);
      FillSmaller(left, root.left, x, t.l, stack);
      FillLarger(right, root.right, z, t.r, stack);
    }

    method FillSmaller(left: SPNode, sub: SPNode?, ghost x: Hole, ghost t: Shape, ghost stack: SPNode)
      requires Smaller(x, stack) && Linked(t, sub) && left == Tip(x, stack)
      requires Nodes(t) !! CtxNodes(x) && Nodes(t) + CtxNodes(x) <= repr && stack !in repr
      modifies left`right
      ensures root == old(root) && repr == old(repr)
      ensures Linked(Plug(x, t), stack.right)
    {
      assert !x.Top? ==> Smaller(x.up, stack) && Linked(x.l, x.n.left);
      left.right := sub;
      assert Smaller(x, stack);
      ZipSmaller(x, t, stack);
    }

    method FillLarger(right: SPNode, sub: SPNode?, ghost z: Hole, ghost t: Shape, ghost stack: SPNode)
      requires Larger(z, stack) && Linked(t, sub) && right == Tip(z, stack)
      requires Nodes(t) !! CtxNodes(z) && Nodes(t) + CtxNodes(z) <= repr && stack !in repr
      modifies right`left
      ensures root == old(root) && repr == old(repr)
      ensures Linked(Plug(z, t), stack.left)
    {
      assert !z.Top? ==> Larger(z.up, stack) && Linked(z.r, z.n.right);
      right.left := sub;
      assert Larger(z, stack);
      ZipLarger(z, t, stack);
    }

    // The splay loop.  The root becomes the node with the key of elm if there is one, and
    // otherwise a node next to where it would be; the nodes keep their order.
    method Splay(elm: SPNode)
      requires Valid() && root != null
      modifies this`root, this`shape, repr
      ensures Valid() && Contents() == old(Contents()) && Around(shape, elm.key) && repr == old(repr)
    {
      var node := new SPNode(0);
      var left, right := node, node;
      ghost var x: Hole, t, z: Hole := Top, shape, Top;
      ghost var s := Contents();
      TotalStart(t);
      while elm.key != root.key
        invariant Split(x, t, z, node) && t.T? && left == Tip(x, node) && right == Tip(z, node)
        invariant Parts(x, t, z, elm.key) && Total(x, t, z) == s
        invariant s == Contents() && fresh(node) && repr == Nodes(shape)
        decreases Size(t)
      {
        var stop;
        if elm.key < root.key {
          GoLeftParts(x, t, z, elm.key);
          stop, right, t, z := GoLeft(elm, right, x, t, z, node);
        } else {
          GoRightParts(x, t, z, elm.key);
          stop, left, x, t := GoRight(elm, left, x, t, z, node);
        }
        if stop {
          break;
        }
      }
      Rebuild(elm.key, node, left, right, x, t, z);
    }

    method Rebuild(ghost k: int, node: SPNode, left: SPNode, right: SPNode, ghost x: Hole, ghost t: Shape,
        ghost z: Hole)
      requires Split(x, t, z, node) && t.T? && left == Tip(x, node) && right == Tip(z, node)
      requires Parts(x, t, z, k) && Total(x, t, z) == Contents() && repr == Nodes(shape)
      requires t.n.key == k || (k < t.n.key && t.l.E?) || (k > t.n.key && t.r.E?)
      modifies this`shape, node, repr
      ensures Valid() && Contents() == old(Contents()) && Around(shape, k) && repr == old(repr)
    {
      ghost var u := T(Plug(x, t.l), t.n, (), Plug(z, t.r));
      AssembledElems(x, t, z, k, node);
      SameNodes(shape, u);
      Assemble(node, left, right, x, t, z);
      shape := u;
    }

    // One pass of the loop for a key smaller than the root's: a zig or a zig-zig.
    method GoLeft(elm: SPNode, right0: SPNode, ghost x: Hole, ghost t0: Shape, ghost z0: Hole, ghost node: SPNode)
      returns (stop: bool, right: SPNode, ghost t: Shape, ghost z: Hole)
      requires Split(x, t0, z0, node) && t0.T? && right0 == Tip(z0, node)
      modifies this`root, Nodes(t0), right0`left
      ensures shape == old(shape) && repr == old(repr)
      ensures Split(x, t, z, node) && right == Tip(z, node)
      ensures var u := ZigLeft(t0, elm.key);
        stop == u.l.E? && if stop then t == u && z == z0 else t == u.l && z == HoleLeft(z0, u)
    {
      stop, right, t, z := true, right0, t0, z0;
      assert Linked(t.l, root.left);
      var tmp := root.left;
      if tmp == null {
        return;
      }
      if elm.key < tmp.key {
        RotateRight(tmp, x, t, z, node);
        t := TurnRight(t);
        assert Linked(t.l, root.left);
        if root.left == null {
          return;
        }
      }
      stop := false;
      right := LinkLeft(right, x, t, z, node);
      z, t := HoleLeft(z, t), t.l;
    }

    method GoRight(elm: SPNode, left0: SPNode, ghost x0: Hole, ghost t0: Shape, ghost z: Hole, ghost node: SPNode)
      returns (stop: bool, left: SPNode, ghost x: Hole, ghost t: Shape)
      requires Split(x0, t0, z, node) && t0.T? && left0 == Tip(x0, node)
      modifies this`root, Nodes(t0), left0`right
      ensures shape == old(shape) && repr == old(repr)
      ensures Split(x, t, z, node) && left == Tip(x, node)
      ensures var u := ZigRight(t0, elm.key);
        stop == u.r.E? && if stop then t == u && x == x0 else t == u.r && x == HoleRight(x0, u)
    {
      stop, left, x, t := true, left0, x0, t0;
      assert Linked(t.r, root.right);
      var tmp := root.right;
      if tmp == null {
        return;
      }
      if elm.key > tmp.key {
        RotateLeft(tmp, x, t, z, node);
        t := TurnLeft(t);
        assert Linked(t.r, root.right);
        if root.right == null {
          return;
        }
      }
      stop := false;
      left := LinkRight(left, x, t, z, node);
      x, t := HoleRight(x, t), t.r;
    }

    // SPLAY_FIND
    method Find(elm: SPNode) returns (r: SPNode?)
      requires Valid()
      modifies this`root, this`shape, repr
      ensures Valid() && Contents() == old(Contents()) && repr == old(repr)
      ensures r != null ==> r in repr && r.key == elm.key && r == root
      ensures r == null ==> forall n :: n in repr ==> n.key != elm.key
    {
      if root == null {
        return null;
      }
      Splay(elm);
      RootOrNeighbour(shape, elm.key);
      if elm.key == root.key {
        return root;
      }
      return null;
    }

    // SPLAY_INSERT
    method Insert(elm: SPNode) returns (r: SPNode?)
      requires Valid()
      modifies this, repr, elm
      ensures Valid()
      ensures r == null ==> repr == old(repr) + {elm} && root == elm && forall n :: n in old(repr) ==> n.key != elm.key
      ensures r != null ==> Contents() == old(Contents()) && repr == old(repr) && r in repr && r.key == elm.key
      ensures elm in old(repr) ==> r == elm
    {
      if root == null {
        elm.left, elm.right := null, null;
        shape := T(E, elm, (), E);
        root := elm;
        repr := {elm};
      } else {
        Splay(elm);
        RootOrNeighbour(shape, elm.key);
        if elm in repr { MemberRoot(shape, elm); }
        if elm.key == root.key {
          return root;
        }
        if elm.key < root.key {
          InsertAbove(elm);
        } else {
          InsertBelow(elm);
        }
      }
      r := null;
    }

    // elm gets the old root as its right child, and the smaller keys.
    method InsertAbove(elm: SPNode)
      requires Valid() && elm !in repr && Around(shape, elm.key) && elm.key < shape.n.key
      modifies this, root, elm
      ensures Valid() && root == elm && repr == old(repr) + {elm}
    {
      ghost var t := shape;
      InsertedLeft(t, elm);
      assert Linked(t, root) && root == t.n;
      assert Linked(t.l, root.left) && Linked(t.r, root.right);
      elm.left := root.left;
      elm.right := root;
      root.left := null;
      ghost var u := T(E, t.n, (), t.r);
      assert Linked(t.r, t.n.right) && Linked(E, t.n.left);
      assert Linked(u, elm.right);
      shape := T(t.l, elm, (), u);
      root := elm;
      repr := repr + {elm};
    }

    method InsertBelow(elm: SPNode)
      requires Valid() && elm !in repr && Around(shape, elm.key) && elm.key > shape.n.key
      modifies this, root, elm
      ensures Valid() && root == elm && repr == old(repr) + {elm}
    {
      ghost var t := shape;
      InsertedRight(t, elm);
      assert Linked(t, root) && root == t.n;
      assert Linked(t.l, root.left) && Linked(t.r, root.right);
      elm.right := root.right;
      elm.left := root;
      root.right := null;
      ghost var u := T(t.l, t.n, (), E);
      assert Linked(t.l, t.n.left) && Linked(E, t.n.right);
      assert Linked(u, elm.left);
      shape := T(u, elm, (), t.r);
      root := elm;
      repr := repr + {elm};
    }

    // SPLAY_REMOVE.  Only the key of elm matters; `gone` is the node taken out.
    method Remove(elm: SPNode) returns (r: SPNode?, ghost gone: SPNode?)
      requires Valid()
      modifies this, repr
      ensures Valid()
      ensures r == null ==> gone == null && Contents() == old(Contents()) && repr == old(repr)
      ensures r == null ==> forall n :: n in repr ==> n.key != elm.key
      ensures r != null ==> r == elm && gone in old(repr) && gone.key == elm.key && repr == old(repr) - {gone}
      ensures elm in old(repr) ==> gone == elm
    {
      r, gone := null, null;
      if root == null {
        return;
      }
      Splay(elm);
      RootOrNeighbour(shape, elm.key);
      if elm in repr { MemberRoot(shape, elm); }
      if elm.key == root.key {
        r, gone := elm, root;
        RemovedElems(shape);
        assert Linked(shape.l, root.left);
        if root.left == null {
          root := root.right;
          repr := repr - {shape.n};
          shape := shape.r;
        } else {
          JoinSubtrees(elm);
        }
      }
    }

    // Its case of a root with a left subtree: re-splayed for the same key, the left subtree
    // has a root without a right child, so hanging the right subtree there loses nothing.
    method JoinSubtrees(elm: SPNode)
      requires Valid() && shape.T? && shape.l.T? && Around(shape, elm.key)
      modifies this, repr
      ensures Valid() && repr == old(repr) - {old(shape.n)}
    {
      ghost var t, all := shape, repr;
      RemovedElems(t);
      var tmp := FocusLeft();
      Splay(elm);
      NoRightChild(shape, t.l, elm.key);
      RejoinedElems(shape, t);
      HangRight(tmp, t.r);
      repr := all - {t.n};
    }

    // The left subtree becomes the tree; the right one is put aside.
    method FocusLeft() returns (tmp: SPNode?)
      requires Valid() && shape.T? && shape.l.T?
      modifies this
      ensures Linked(shape, root) && shape == old(shape.l) && repr == Nodes(shape)
      ensures Linked(old(shape.r), tmp)
    {
      ghost var t := shape;
      assert Linked(t.l, root.left) && Linked(t.r, root.right);
      tmp := root.right;
      root := root.left;
      shape := t.l;
      repr := Nodes(t.l);
    }

    method HangRight(tmp: SPNode?, ghost r: Shape)
      requires Linked(shape, root) && shape.T? && shape.r == E && Linked(r, tmp) && Nodes(shape) !! Nodes(r)
      modifies this`shape, root
      ensures shape == old(T(shape.l, shape.n, (), r)) && Linked(shape, root) && root == old(root)
    {
      assert Linked(shape.l, root.left);
      root.right := tmp;
      shape := T(shape.l, shape.n, (), r);
    }

    // SPLAY_NEXT, for the element at position i of the tree.
    method Next(elm0: SPNode, ghost i: nat) returns (elm: SPNode?)
      requires Valid() && i < |Contents()| && Contents()[i] == elm0
      modifies this`root, this`shape, repr
      ensures Valid() && Contents() == old(Contents()) && repr == old(repr)
      ensures elm == if i + 1 < |Contents()| then Contents()[i + 1] else null
    {
      ElemsNodes(shape);
      InToSet(Contents(), elm0);
      MemberRoot(shape, elm0);
      Splay(elm0);
      MemberRoot(shape, elm0);
      ghost var t := shape;
      FollowedBy(Elems(t.l), elm0, Elems(t.r), i);
      assert Linked(t.r, elm0.right);
      if elm0.right != null {
        elm := elm0.right;
        elm := LeftMost(elm, t.r);
      } else {
        elm := null;
      }
    }

    method LeftMost(elm0: SPNode, ghost t0: Shape) returns (elm: SPNode)
      requires Linked(t0, elm0)
      ensures Elems(t0) != [] && elm == Elems(t0)[0]
    {
      elm := elm0;
      ghost var y: Hole, t := Top, t0;
      assert Linked(t.l, elm.left);
      while elm.left != null
        invariant Linked(t, elm) && Plug(y, t) == t0 && Before(y) == [] && elm.left == RootOf(t.l)
        decreases t
      {
        assert Linked(t.l, elm.left);
        elm := elm.left;
        y, t := HoleLeft(y, t), t.l;
        assert Linked(t.l, elm.left);
      }
      PlugElems(y, t);
    }

    // SPLAY_MINMAX, on a tree that is not empty and for one of its two directions.
    method MinMax(comp: int) returns (r: SPNode)
      requires Valid() && root != null && comp != 0
      modifies this`root, this`shape, repr
      ensures Valid() && Contents() == old(Contents()) && r == root && repr == old(repr)
      ensures r == if comp < 0 then Contents()[0] else Contents()[|Contents()| - 1]
    {
      var node := new SPNode(0);
      var left, right := node, node;
      ghost var x: Hole, t, z: Hole := Top, shape, Top;
      ghost var s := Contents();
      TotalStart(t);
      while true
        invariant Split(x, t, z, node) && t.T? && left == Tip(x, node) && right == Tip(z, node)
        invariant Total(x, t, z) == s && (if comp < 0 then x.Top? else z.Top?)
        invariant s == Contents() && fresh(node) && repr == Nodes(shape) && Sorted(s)
        decreases Size(t)
      {
        var stop;
        if comp < 0 {
          EdgeTotal(x, t, z);
          stop, right, t, z := EdgeLeft(right, x, t, z, node);
        } else {
          EdgeTotal(x, t, z);
          stop, left, x, t := EdgeRight(left, x, t, z, node);
        }
        if stop {
          break;
        }
      }
      RebuildEdge(node, left, right, x, t, z);
      r := root;
    }

    method RebuildEdge(node: SPNode, left: SPNode, right: SPNode, ghost x: Hole, ghost t: Shape, ghost z: Hole)
      requires Split(x, t, z, node) && t.T? && left == Tip(x, node) && right == Tip(z, node)
      requires Total(x, t, z) == Contents() && repr == Nodes(shape) && Sorted(Contents())
      requires (x.Top? && t.l.E?) || (z.Top? && t.r.E?)
      modifies this`shape, node, repr
      ensures Valid() && Contents() == old(Contents()) && root == old(root) && repr == old(repr)
      ensures x.Top? && t.l.E? ==> root == Contents()[0]
      ensures z.Top? && t.r.E? ==> root == Contents()[|Contents()| - 1]
    {
      ghost var u := T(Plug(x, t.l), t.n, (), Plug(z, t.r));
      AssembledTotal(x, t, z, node);
      SameNodes(shape, u);
      Assemble(node, left, right, x, t, z);
      shape := u;
    }

    method EdgeLeft(right0: SPNode, ghost x: Hole, ghost t0: Shape, ghost z0: Hole, ghost node: SPNode)
      returns (stop: bool, right: SPNode, ghost t: Shape, ghost z: Hole)
      requires Split(x, t0, z0, node) && t0.T? && right0 == Tip(z0, node)
      modifies this`root, Nodes(t0), right0`left
      ensures shape == old(shape) && repr == old(repr)
      ensures Split(x, t, z, node) && right == Tip(z, node)
      ensures var u := EdgeTurnLeft(t0);
        stop == u.l.E? && if stop then t == u && z == z0 else t == u.l && z == HoleLeft(z0, u)
    {
      stop, right, t, z := true, right0, t0, z0;
      assert Linked(t.l, root.left);
      var tmp := root.left;
      if tmp == null {
        return;
      }
      RotateRight(tmp, x, t, z, node);
      t := TurnRight(t);
      assert Linked(t.l, root.left);
      if root.left == null {
        return;
      }
      stop := false;
      right := LinkLeft(right, x, t, z, node);
      z, t := HoleLeft(z, t), t.l;
    }

    method EdgeRight(left0: SPNode, ghost x0: Hole, ghost t0: Shape, ghost z: Hole, ghost node: SPNode)
      returns (stop: bool, left: SPNode, ghost x: Hole, ghost t: Shape)
      requires Split(x0, t0, z, node) && t0.T? && left0 == Tip(x0, node)
      modifies this`root, Nodes(t0), left0`right
      ensures shape == old(shape) && repr == old(repr)
      ensures Split(x, t, z, node) && left == Tip(x, node)
      ensures var u := EdgeTurnRight(t0);
        stop == u.r.E? && if stop then t == u && x == x0 else t == u.r && x == HoleRight(x0, u)
    {
      stop, left, x, t := true, left0, x0, t0;
      assert Linked(t.r, root.right);
      var tmp := root.right;
      if tmp == null {
        return;
      }
      RotateLeft(tmp, x, t, z, node);
      t := TurnLeft(t);
      assert Linked(t.r, root.right);
      if root.right == null {
        return;
      }
      stop := false;
      left := LinkRight(left, x, t, z, node);
      x, t := HoleRight(x, t), t.r;
    }

    lemma Empty()
      requires Valid()
      ensures root == null <==> Contents() == []
    {
    }

    // SPLAY_FOREACH: from SPLAY_MIN, along SPLAY_NEXT, until it returns NULL.
    method Foreach() returns (visited: seq<SPNode>)
      requires Valid()
      modifies this`root, this`shape, repr
      ensures Valid() && Contents() == old(Contents()) && visited == Contents()
    {
      hide Linked, Sorted, Elems;
      visited := [];
      Empty();
      if root == null {
        return;
      }
      var first := MinMax(-1);
      var x: SPNode? := first;
      while x != null
        invariant Valid() && Contents() == old(Contents()) && repr == old(repr)
        invariant |visited| <= |Contents()| && visited == Contents()[..|visited|]
        invariant x == if |visited| < |Contents()| then Contents()[|visited|] else null
        decreases |Contents()| - |visited|
      {
        visited := visited + [x];
        x := Next(x, |visited| - 1);
      }
    }
  }
}
