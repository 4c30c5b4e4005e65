/** Red-black trees of core/btree.h on linked nodes. */
module RedBlackTree {
  import opened Powers
  import opened TreeShapes
  import opened RedBlackShapes

  // The RB_ENTRY fields of an element, and the key its comparison function looks at.
  class RBNode {
    const key: int
    var left: RBNode?
    var right: RBNode?
    var parent: RBNode?
    var color: Color

    constructor (key: int)
      ensures this.key == key
    {
      this.key := key;
      left, right, parent, color := null, null, null, BLACK;
    }
  }

  type Shape = Tree<RBNode, Color>
  type Hole = Ctx<RBNode, Color>

  function RootOf(t: Shape): RBNode? { if t.T? then t.n else null }
  function ParentOf(x: Hole): RBNode? { if x.Top? then null else x.n }

  predicate Sorted(s: seq<RBNode>) {
    forall i, j :: 0 <= i < j < |s| ==> s[i].key < s[j].key
  }

  // The links below `root` are those of the shape t; `parent` is what root points up to.
  ghost predicate Linked(t: Shape, root: RBNode?, parent: RBNode?)
    reads Nodes(t)
  {
    match t
    case E => root == null
    case T(l, n, c, r) =>
      && root == n && n.parent == parent && n.color == c
      && Linked(l, n.left, n) && Linked(r, n.right, n)
      && n !in Nodes(l) && n !in Nodes(r) && Nodes(l) !! Nodes(r)
  }

  lemma InsertedSorted(a: seq<RBNode>, e: RBNode, b: seq<RBNode>)
    requires Sorted(a + b)
    requires (forall n :: n in a ==> n.key < e.key) && (forall n :: n in b ==> e.key < n.key)
    ensures Sorted(a + [e] + b)
  {
    var s, u := a + [e] + b, a + b;
    forall i, j | 0 <= i < j < |s|
      ensures s[i].key < s[j].key
    {
      assert i < |a| ==> s[i] == u[i] && s[i] in a;
      assert j > |a| ==> s[j] == u[j - 1] && s[j] in b;
      assert i > |a| ==> s[i] == u[i - 1];
      assert j < |a| ==> s[j] == u[j];
    }
  }

  lemma RemovedSorted(a: seq<RBNode>, e: RBNode, b: seq<RBNode>)
    requires Sorted(a + [e] + b)
    ensures Sorted(a + b) && e !in a && e !in b
    ensures (forall n :: n in a ==> n.key < e.key) && (forall n :: n in b ==> e.key < n.key)
  {
    var s, u := a + [e] + b, a + b;
    assert s[|a|] == e;
    forall n | n in a ensures n.key < e.key {
      var i :| 0 <= i < |a| && a[i] == n;
      assert s[i] == n;
    }
    forall n | n in b ensures e.key < n.key {
      var i :| 0 <= i < |b| && b[i] == n;
      assert s[|a| + 1 + i] == n;
    }
    forall i, j | 0 <= i < j < |u|
      ensures u[i].key < u[j].key
    {
      assert u[i] == s[if i < |a| then i else i + 1];
      assert u[j] == s[if j < |a| then j else j + 1];
    }
  }

  // Sorted nodes are determined by which nodes they are.
  lemma {:induction false} SortedUnique(s: seq<RBNode>, u: seq<RBNode>)
    requires Sorted(s) && Sorted(u) && forall n :: n in s <==> n in u
    ensures s == u
  {
    assert s != [] ==> s[0] in s && s[0] in u;
    assert u != [] ==> u[0] in u && u[0] in s;
    if s != [] && u != [] {
      var s', u' := s[1..], u[1..];
      assert s == [s[0]] + s' && u == [u[0]] + u';
      forall n ensures n in s' <==> n in u' {
        if n in s' { assert n in s && n.key > s[0].key; }
        if n in u' { assert n in u && n.key > u[0].key; }
      }
      SortedUnique(s', u');
    }
  }

  // The keys found so far on the way down enclose k.
  predicate Bracket(x: Hole, k: int) {
    (forall n :: n in Before(x) ==> n.key < k) && (forall n :: n in After(x) ==> k < n.key)
  }

  lemma Narrow(x: Hole, t: Shape, k: int)
    requires t.T? && Bracket(x, k) && Sorted(Elems(Plug(x, t)))
    ensures k < t.n.key ==> Bracket(HoleLeft(x, t), k)
    ensures k > t.n.key ==> Bracket(HoleRight(x, t), k)
  {
    PlugSplit(x, t);
    RemovedSorted(Before(x) + Elems(t.l), t.n, Elems(t.r) + After(x));
  }

  lemma BracketMisses(x: Hole, k: int)
    requires Bracket(x, k)
    ensures forall n :: n in Nodes(Plug(x, E)) ==> n.key != k
  {
    PlugSets(x, E);
    forall n | n in Nodes(Plug(x, E))
      ensures n.key != k
    {
      InToSet(Before(x), n);
      InToSet(After(x), n);
    }
  }

  // In sorted nodes, what follows e is what comes first after it.
  lemma FollowedBy(a: seq<RBNode>, e: RBNode, b: seq<RBNode>, i: nat)
    requires Sorted(a + [e] + b) && i < |a + [e] + b| && (a + [e] + b)[i] == e
    ensures (if i + 1 < |a + [e] + b| then (a + [e] + b)[i + 1] else null) == FirstOf(b)
  {
    assert (a + [e] + b)[|a|] == e;
  }

  function FirstOf(s: seq<RBNode>): RBNode? { if s == [] then null else s[0] }

  class RBHead {
    var root: RBNode?
    ghost var shape: Shape
    ghost var repr: set<RBNode>

    constructor ()
      ensures Valid() && repr == {}
    {
      root := null;
      shape := E;
      repr := {};
    }

    // The links form a tree, in key order, with the red-black conditions.
    ghost predicate Valid()
      reads this, Nodes(shape)
    {
      View(Top, shape) && Sorted(Elems(shape)) && RedBlack(shape) && repr == Nodes(shape)
    }

    // The links around a hole are those of the context x; `sub` is what hangs in the hole.
    ghost predicate Above(x: Hole, sub: RBNode?, parent: RBNode?)
      reads this`root, CtxNodes(x)
    {
      match x
      case Top => parent == null && root == sub
      case InLeft(up, n, c, r) =>
        && parent == n && n.left == sub && n.color == c
        && Linked(r, n.right, n) && Above(up, n, n.parent)
        && n !in Nodes(r) && n !in CtxNodes(up) && Nodes(r) !! CtxNodes(up)
      case InRight(up, l, n, c) =>
        && parent == n && n.right == sub && n.color == c
        && Linked(l, n.left, n) && Above(up, n, n.parent)
        && n !in Nodes(l) && n !in CtxNodes(up) && Nodes(l) !! CtxNodes(up)
    }

    // The linked structure is Plug(x, t), seen with the focus on t.
    ghost predicate View(x: Hole, t: Shape)
      reads this`root, this`repr, CtxNodes(x), Nodes(t)
    {
      Above(x, RootOf(t), ParentOf(x)) && Linked(t, RootOf(t), ParentOf(x)) && Nodes(t) !! CtxNodes(x)
      && Nodes(t) + CtxNodes(x) <= repr
    }

    lemma {:induction false} Zip(x: Hole, t: Shape)
      requires View(x, t)
      ensures View(Top, Plug(x, t))
      decreases x
    {
      match x
      case Top =>
      case InLeft(up, n, c, r) => assert Above(up, n, n.parent); Zip(up, T(t, n, c, r));
      case InRight(up, l, n, c) => assert Above(up, n, n.parent); Zip(up, T(l, n, c, t));
    }

    lemma {:induction false} Unzip(x: Hole, t: Shape)
      requires View(Top, Plug(x, t))
      ensures View(x, t)
      decreases x
    {
      match x
      case Top =>
      case InLeft(up, n, c, r) => Unzip(up, T(t, n, c, r)); DownLeft(up, T(t, n, c, r));
      case InRight(up, l, n, c) => Unzip(up, T(l, n, c, t)); DownRight(up, T(l, n, c, t));
    }

    // Moving the focus to a child.
    lemma DownLeft(x: Hole, t: Shape)
      requires View(x, t) && t.T?
      ensures View(HoleLeft(x, t), t.l)
    {
      assert Linked(t.l, t.n.left, t.n);
    }

    lemma DownRight(x: Hole, t: Shape)
      requires View(x, t) && t.T?
      ensures View(HoleRight(x, t), t.r)
    {
      assert Linked(t.r, t.n.right, t.n);
    }

    // Moving the focus to the parent.
    lemma Up(x: Hole, t: Shape)
      requires View(x, t) && !x.Top?
      ensures View(x.up, Wrap(x, t))
    {
      assert Above(x.up, x.n, x.n.parent);
    }

    lemma {:induction false} RootAbove(x: Hole, sub: RBNode?, parent: RBNode?)
      requires Above(x, sub, parent)
      ensures if x.Top? then root == sub else root != null && root in CtxNodes(x)
      decreases x
    {
      match x
      case Top =>
      case InLeft(up, n, _, _) => RootAbove(up, n, n.parent);
      case InRight(up, _, n, _) => RootAbove(up, n, n.parent);
    }

    // The step shared by the rotations and the removal: whatever pointed down to `was`
    // (a child link of its parent, or the root) now points to `sub`.
    method Redirect(parent: RBNode?, was: RBNode, sub: RBNode?, ghost x: Hole)
      requires Above(x, was, parent) && was !in CtxNodes(x)
      modifies this`root, if x.Top? then {} else {x.n}
      ensures Above(x, sub, parent)
      ensures !x.Top? ==> root == old(root) && x.n.parent == old(x.n.parent)
    {
      assert !x.Top? ==> Above(x.up, x.n, x.n.parent);
      if parent != null {
        assert x.InRight? ==> Linked(x.l, x.n.left, x.n);
        if parent.left == was {
          parent.left := sub;
        } else {
          parent.right := sub;
        }
      } else {
        root := sub;
      }
    }

    // RB_ROTATE_LEFT: the links of elm, of its right child and of the subtree between them,
    // then the link down from the parent.
    method RotateLeft(elm: RBNode, ghost x: Hole, ghost t: Shape) returns (tmp: RBNode)
      requires View(x, t) && t.T? && t.n == elm && t.r.T?
      modifies this`root, repr
      ensures tmp == t.r.n
      ensures View(x, TurnLeft(t))
    {
      var parent := elm.parent;
      tmp := LowerLeft(elm, t, elm.parent);
      Redirect(parent, elm, tmp, x);
    }

    method LowerLeft(elm: RBNode, ghost t: Shape, ghost parent: RBNode?) returns (tmp: RBNode)
      requires Linked(t, elm, parent) && t.r.T? && Nodes(t) <= repr
      modifies Nodes(t)
      ensures tmp == t.r.n
      ensures Linked(TurnLeft(t), tmp, parent)
    {
      ghost var mid := t.r.l;
      assert Linked(t.r, elm.right, elm);
      assert Linked(mid, elm.right.left, elm.right);
      tmp := elm.right;
      elm.right := tmp.left;
      if elm.right != null {
        tmp.left.parent := elm;
      }
      tmp.parent := elm.parent;
      tmp.left := elm;
      elm.parent := tmp;
      assert Linked(mid, elm.right, elm);
    }

    // RB_ROTATE_RIGHT
    method RotateRight(elm: RBNode, ghost x: Hole, ghost t: Shape) returns (tmp: RBNode)
      requires View(x, t) && t.T? && t.n == elm && t.l.T?
      modifies this`root, repr
      ensures tmp == t.l.n
      ensures View(x, TurnRight(t))
    {
      var parent := elm.parent;
      tmp := LowerRight(elm, t, elm.parent);
      Redirect(parent, elm, tmp, x);
    }

    method LowerRight(elm: RBNode, ghost t: Shape, ghost parent: RBNode?) returns (tmp: RBNode)
      requires Linked(t, elm, parent) && t.l.T? && Nodes(t) <= repr
      modifies Nodes(t)
      ensures tmp == t.l.n
      ensures Linked(TurnRight(t), tmp, parent)
    {
      ghost var mid := t.l.r;
      assert Linked(t.l, elm.left, elm);
      assert Linked(mid, elm.left.right, elm.left);
      tmp := elm.left;
      elm.left := tmp.right;
      if elm.left != null {
        tmp.right.parent := elm;
      }
      tmp.parent := elm.parent;
      tmp.right := elm;
      elm.parent := tmp;
      assert Linked(mid, elm.left, elm);
    }

    // Colouring the node in focus.
    method Paint(n: RBNode, color: Color, ghost x: Hole, ghost t: Shape)
      requires View(x, t) && t.T? && t.n == n
      modifies n`color
      ensures View(x, t.(c := color))
    {
      assert !x.Top? ==> Above(x.up, x.n, x.n.parent);
      n.color := color;
    }

    // Colouring a child of the node in focus.
    method PaintLeft(n: RBNode, color: Color, ghost x: Hole, ghost t: Shape)
      requires View(x, t) && t.T? && t.l.T? && t.l.n == n
      modifies n`color
      ensures View(x, ColorLeft(t, color))
    {
      DownLeft(x, t);
      Paint(n, color, HoleLeft(x, t), t.l);
      Up(HoleLeft(x, t), t.l.(c := color));
    }

    method PaintRight(n: RBNode, color: Color, ghost x: Hole, ghost t: Shape)
      requires View(x, t) && t.T? && t.r.T? && t.r.n == n
      modifies n`color
      ensures View(x, ColorRight(t, color))
    {
      DownRight(x, t);
      Paint(n, color, HoleRight(x, t), t.r);
      Up(HoleRight(x, t), t.r.(c := color));
    }


    // The branch of RB_INSERT_COLOR for a parent that is a left child.
    method InsertFixLeft(e: RBNode, p: RBNode, gparent: RBNode, ghost x0: Hole, ghost t0: Shape)
      returns (elm: RBNode, ghost x: Hole, ghost t: Shape)
      requires View(x0, t0) && t0.T? && t0.n == e && InsertInv(x0, t0)
      requires !x0.Top? && x0.n == p && x0.c == RED && x0.up.InLeft? && x0.up.n == gparent
      modifies this`root, repr
      ensures View(x, t) && t.T? && t.n == elm && InsertInv(x, t)
      ensures Elems(Plug(x, t)) == Elems(Plug(x0, t0))
      ensures Depth(x) < Depth(x0)
    {
      hide InsertInv, Elems, Before, After;
      ghost var gx := x0.up.up;
      ghost var g := Wrap(x0.up, Wrap(x0, t0));  // the subtree at gparent
      Up(x0, t0);
      Up(x0.up, Wrap(x0, t0));
      DownRight(gx, g);
      if gparent.right != null && gparent.right.color == RED {
        RaisedInv(x0, t0);
        PaintRight(gparent.right, BLACK, gx, g);
        t := ColorRight(g, BLACK);
        PaintLeft(p, BLACK, gx, t);
        t := ColorLeft(t, BLACK);
        Paint(gparent, RED, gx, t);
        elm, x, t := gparent, gx, t.(c := RED);
        SameElems(gx, g, t);
      } else {
        TurnedLeftInv(x0, t0);
        elm, t := InsertTurnLeft(e, p, gparent, gx, g, x0.InRight?);
        SameElems(gx, g, t);
        DownLeft(gx, t);
        x, t := HoleLeft(gx, t), t.l;
      }
    }

    // Its case of a black uncle: a double rotation when elm is an inner grandchild.
    method InsertTurnLeft(e: RBNode, p: RBNode, gparent: RBNode, ghost gx: Hole, ghost g: Shape, ghost inner: bool)
      returns (elm: RBNode, ghost t: Shape)
      requires View(gx, g) && g.T? && g.n == gparent && g.l.T? && g.l.n == p
      requires if inner then g.l.r.T? && g.l.r.n == e else g.l.l.T? && g.l.l.n == e
      modifies this`root, repr
      ensures View(gx, t) && t == TurnedLeft(g, inner) && t.l.T? && t.l.n == elm
    {
      elm, t := e, g;
      var parent := p;
      DownLeft(gx, g);
      ghost var px := HoleLeft(gx, g);
      DownLeft(px, g.l);
      DownRight(px, g.l);
      if parent.right == elm {
        var tmp := RotateLeft(parent, px, g.l);
        Up(px, TurnLeft(g.l));
        t := g.(l := TurnLeft(g.l));
        tmp := parent;
        parent := elm;
        elm := tmp;
      }
      PaintLeft(parent, BLACK, gx, t);
      t := ColorLeft(t, BLACK);
      Paint(gparent, RED, gx, t);
      t := t.(c := RED);
      var _ := RotateRight(gparent, gx, t);
      t := TurnRight(t);
    }

    // The branch of RB_INSERT_COLOR for a parent that is a right child.
    method InsertFixRight(e: RBNode, p: RBNode, gparent: RBNode, ghost x0: Hole, ghost t0: Shape)
      returns (elm: RBNode, ghost x: Hole, ghost t: Shape)
      requires View(x0, t0) && t0.T? && t0.n == e && InsertInv(x0, t0)
      requires !x0.Top? && x0.n == p && x0.c == RED && x0.up.InRight? && x0.up.n == gparent
      modifies this`root, repr
      ensures View(x, t) && t.T? && t.n == elm && InsertInv(x, t)
      ensures Elems(Plug(x, t)) == Elems(Plug(x0, t0))
      ensures Depth(x) < Depth(x0)
    {
      hide InsertInv, Elems, Before, After;
      ghost var gx := x0.up.up;
      ghost var g := Wrap(x0.up, Wrap(x0, t0));  // the subtree at gparent
      Up(x0, t0);
      Up(x0.up, Wrap(x0, t0));
      DownLeft(gx, g);
      if gparent.left != null && gparent.left.color == RED {
        RaisedInv(x0, t0);
        PaintLeft(gparent.left, BLACK, gx, g);
        t := ColorLeft(g, BLACK);
        PaintRight(p, BLACK, gx, t);
        t := ColorRight(t, BLACK);
        Paint(gparent, RED, gx, t);
        elm, x, t := gparent, gx, t.(c := RED);
        SameElems(gx, g, t);
      } else {
        TurnedRightInv(x0, t0);
        elm, t := InsertTurnRight(e, p, gparent, gx, g, x0.InLeft?);
        SameElems(gx, g, t);
        DownRight(gx, t);
        x, t := HoleRight(gx, t), t.r;
      }
    }

    // Its case of a black uncle: a double rotation when elm is an inner grandchild.
    method InsertTurnRight(e: RBNode, p: RBNode, gparent: RBNode, ghost gx: Hole, ghost g: Shape, ghost inner: bool)
      returns (elm: RBNode, ghost t: Shape)
      requires View(gx, g) && g.T? && g.n == gparent && g.r.T? && g.r.n == p
      requires if inner then g.r.l.T? && g.r.l.n == e else g.r.r.T? && g.r.r.n == e
      modifies this`root, repr
      ensures View(gx, t) && t == TurnedRight(g, inner) && t.r.T? && t.r.n == elm
    {
      elm, t := e, g;
      var parent := p;
      DownRight(gx, g);
      ghost var px := HoleRight(gx, g);
      DownRight(px, g.r);
      DownLeft(px, g.r);
      if parent.left == elm {
        var tmp := RotateRight(parent, px, g.r);
        Up(px, TurnRight(g.r));
        t := g.(r := TurnRight(g.r));
        tmp := parent;
        parent := elm;
        elm := tmp;
      }
      PaintRight(parent, BLACK, gx, t);
      t := ColorRight(t, BLACK);
      Paint(gparent, RED, gx, t);
      t := t.(c := RED);
      var _ := RotateLeft(gparent, gx, t);
      t := TurnLeft(t);
    }

    // RB_INSERT_COLOR
    method InsertColor(e: RBNode, ghost x0: Hole, ghost t0: Shape) returns (ghost t: Shape)
      requires View(x0, t0) && t0.T? && t0.n == e && InsertInv(x0, t0)
      modifies this`root, repr
      ensures View(Top, t) && RedBlack(t)
      ensures Elems(t) == Elems(Plug(x0, t0))
    {
      var elm := e;
      ghost var x := x0;
      t := t0;
      while true
        invariant View(x, t) && t.T? && t.n == elm && InsertInv(x, t)
        invariant Elems(Plug(x, t)) == Elems(Plug(x0, t0))
        decreases Depth(x)
      {
        var parent := elm.parent;
        if parent == null || parent.color != RED {
          break;
        }
        var gparent := parent.parent;
        Up(x, t);
        Up(x.up, Wrap(x, t));
        assert x.up.InRight? ==> Linked(x.up.l, gparent.left, gparent);
        if parent == gparent.left {
          elm, x, t := InsertFixLeft(elm, parent, gparent, x, t);
        } else {
          elm, x, t := InsertFixRight(elm, parent, gparent, x, t);
        }
      }
      RootAbove(x, elm, elm.parent);
      Zip(x, t);
      if !x.Top? {
        PlugRedBlack(x, t);
      }
      t := Plug(x, t);
      Paint(root, BLACK, Top, t);
      t := t.(c := BLACK);
    }

    // The branch of RB_REMOVE_COLOR for a left child, where p is the subtree at the parent.
    // `last` says that the loop is left by its break.
    method RemoveFixLeft(parent0: RBNode, ghost x0: Hole, ghost p0: Shape)
      returns (parent: RBNode?, elm: RBNode?, last: bool, ghost x: Hole, ghost t: Shape)
      requires View(x0, p0) && ShortLeft(x0, p0) && p0.n == parent0
      modifies this`root, repr
      ensures View(x, t) && elm == RootOf(t) && parent == ParentOf(x)
      ensures Elems(Plug(x, t)) == Elems(Plug(x0, p0))
      ensures last ==> x.Top? && RedBlack(t)
      ensures !last ==> RemoveInv(x, t) && (ColorOf(t) == RED || Depth(x) == Depth(x0))
    {
      ghost var p := p0;
      x := x0;
      DownRight(x, p);
      ShortLeftSibling(x, p);
      if parent0.right.color == RED {
        RedSiblingLeftInv(x, p);
        SameElems(x, p, RedSiblingLeft(p));
        x, p := RemoveRedLeft(parent0, x, p);
      }
      parent, elm, last, x, t := RemoveBlackLeft(parent0, x, p);
    }

    // Its part after the sibling is known to be black.
    method RemoveBlackLeft(parent0: RBNode, ghost x0: Hole, ghost p0: Shape)
      returns (parent: RBNode?, elm: RBNode?, last: bool, ghost x: Hole, ghost t: Shape)
      requires View(x0, p0) && ShortLeft(x0, p0) && p0.n == parent0 && ColorOf(p0.r) == BLACK
      modifies this`root, repr
      ensures View(x, t) && elm == RootOf(t) && parent == ParentOf(x)
      ensures Elems(Plug(x, t)) == Elems(Plug(x0, p0))
      ensures last ==> x.Top? && RedBlack(t)
      ensures !last ==> RemoveInv(x, t) && x == x0 && t == ColorRight(p0, RED)
    {
      ghost var p := p0;
      x := x0;
      DownRight(x, p);
      ShortLeftSibling(x, p);
      ghost var sx := HoleRight(x, p);
      var tmp := parent0.right;
      DownLeft(sx, p.r);
      DownRight(sx, p.r);
      if (tmp.left == null || tmp.left.color == BLACK) && (tmp.right == null || tmp.right.color == BLACK) {
        BlackNephewsLeftInv(x, p);
        SameElems(x, p, ColorRight(p, RED));
        PaintRight(tmp, RED, x, p);
        t := ColorRight(p, RED);
        elm := parent0;
        parent := elm.parent;
        last := false;
      } else {
        if tmp.right == null || tmp.right.color == BLACK {
          InnerNephewLeftInv(x, p);
          SameElems(x, p, InnerNephewLeft(p));
          RemoveInnerLeft(tmp, x, p);
          p := InnerNephewLeft(p);
        }
        OuterNephewLeftInv(x, p);
        SameElems(x, p, OuterNephewLeft(p));
        RemoveOuterLeft(parent0, x, p);
        Zip(x, OuterNephewLeft(p));
        t := Plug(x, OuterNephewLeft(p));
        x := Top;
        elm, parent := root, null;
        last := true;
      }
    }

    method RemoveRedLeft(parent: RBNode, ghost x0: Hole, ghost p0: Shape) returns (ghost x: Hole, ghost p: Shape)
      requires View(x0, p0) && p0.T? && p0.n == parent && p0.r.T?
      modifies this`root, repr
      ensures x == HoleLeft(x0, RedSiblingLeft(p0)) && p == RedSiblingLeft(p0).l && View(x, p)
    {
      DownRight(x0, p0);
      var tmp := parent.right;
      PaintRight(tmp, BLACK, x0, p0);
      Paint(parent, RED, x0, ColorRight(p0, BLACK));
      tmp := RotateLeft(parent, x0, Colored(ColorRight(p0, BLACK), RED));
      x, p := HoleLeft(x0, RedSiblingLeft(p0)), RedSiblingLeft(p0).l;
      DownLeft(x0, RedSiblingLeft(p0));
    }

    method RemoveInnerLeft(tmp: RBNode, ghost x: Hole, ghost p: Shape)
      requires View(x, p) && p.T? && p.r.T? && p.r.n == tmp && p.r.l.T?
      modifies this`root, repr
      ensures View(x, InnerNephewLeft(p))
    {
      ghost var sx := HoleRight(x, p);
      DownRight(x, p);
      DownLeft(sx, p.r);
      var oleft := tmp.left;
      if oleft != null {
        PaintLeft(oleft, BLACK, sx, p.r);
      }
      Paint(tmp, RED, sx, ColorLeft(p.r, BLACK));
      oleft := RotateRight(tmp, sx, Colored(ColorLeft(p.r, BLACK), RED));
      Up(sx, InnerNephewLeft(p).r);
    }

    method RemoveOuterLeft(parent: RBNode, ghost x: Hole, ghost p: Shape)
      requires View(x, p) && p.T? && p.n == parent && p.r.T? && p.r.r.T?
      modifies this`root, repr
      ensures View(x, OuterNephewLeft(p))
    {
      ghost var sx := HoleRight(x, p);
      DownRight(x, p);
      DownRight(sx, p.r);
      var tmp := parent.right;
      Paint(tmp, parent.color, sx, p.r);
      ghost var q := T(p.l, p.n, p.c, Colored(p.r, p.c));
      Up(sx, q.r);
      Paint(parent, BLACK, x, q);
      q := Colored(q, BLACK);
      DownRight(x, q);
      if tmp.right != null {
        PaintRight(tmp.right, BLACK, HoleRight(x, q), q.r);
      }
      Up(HoleRight(x, q), ColorRight(q.r, BLACK));
      tmp := RotateLeft(parent, x, T(q.l, q.n, q.c, ColorRight(q.r, BLACK)));
    }

    // The branch of RB_REMOVE_COLOR for a right child, where p is the subtree at the parent.
    // `last` says that the loop is left by its break.
    method RemoveFixRight(parent0: RBNode, ghost x0: Hole, ghost p0: Shape)
      returns (parent: RBNode?, elm: RBNode?, last: bool, ghost x: Hole, ghost t: Shape)
      requires View(x0, p0) && ShortRight(x0, p0) && p0.n == parent0
      modifies this`root, repr
      ensures View(x, t) && elm == RootOf(t) && parent == ParentOf(x)
      ensures Elems(Plug(x, t)) == Elems(Plug(x0, p0))
      ensures last ==> x.Top? && RedBlack(t)
      ensures !last ==> RemoveInv(x, t) && (ColorOf(t) == RED || Depth(x) == Depth(x0))
    {
      ghost var p := p0;
      x := x0;
      DownLeft(x, p);
      ShortRightSibling(x, p);
      if parent0.left.color == RED {
        RedSiblingRightInv(x, p);
        SameElems(x, p, RedSiblingRight(p));
        x, p := RemoveRedRight(parent0, x, p);
      }
      parent, elm, last, x, t := RemoveBlackRight(parent0, x, p);
    }

    // Its part after the sibling is known to be black.
    method RemoveBlackRight(parent0: RBNode, ghost x0: Hole, ghost p0: Shape)
      returns (parent: RBNode?, elm: RBNode?, last: bool, ghost x: Hole, ghost t: Shape)
      requires View(x0, p0) && ShortRight(x0, p0) && p0.n == parent0 && ColorOf(p0.l) == BLACK
      modifies this`root, repr
      ensures View(x, t) && elm == RootOf(t) && parent == ParentOf(x)
      ensures Elems(Plug(x, t)) == Elems(Plug(x0, p0))
      ensures last ==> x.Top? && RedBlack(t)
      ensures !last ==> RemoveInv(x, t) && x == x0 && t == ColorLeft(p0, RED)
    {
      ghost var p := p0;
      x := x0;
      DownLeft(x, p);
      ShortRightSibling(x, p);
      ghost var sx := HoleLeft(x, p);
      var tmp := parent0.left;
      DownRight(sx, p.l);
      DownLeft(sx, p.l);
      if (tmp.right == null || tmp.right.color == BLACK) && (tmp.left == null || tmp.left.color == BLACK) {
        BlackNephewsRightInv(x, p);
        SameElems(x, p, ColorLeft(p, RED));
        PaintLeft(tmp, RED, x, p);
        t := ColorLeft(p, RED);
        elm := parent0;
        parent := elm.parent;
        last := false;
      } else {
        if tmp.left == null || tmp.left.color == BLACK {
          InnerNephewRightInv(x, p);
          SameElems(x, p, InnerNephewRight(p));
          RemoveInnerRight(tmp, x, p);
          p := InnerNephewRight(p);
        }
        OuterNephewRightInv(x, p);
        SameElems(x, p, OuterNephewRight(p));
        RemoveOuterRight(parent0, x, p);
        Zip(x, OuterNephewRight(p));
        t := Plug(x, OuterNephewRight(p));
        x := Top;
        elm, parent := root, null;
        last := true;
      }
    }

    method RemoveRedRight(parent: RBNode, ghost x0: Hole, ghost p0: Shape) returns (ghost x: Hole, ghost p: Shape)
      requires View(x0, p0) && p0.T? && p0.n == parent && p0.l.T?
      modifies this`root, repr
      ensures x == HoleRight(x0, RedSiblingRight(p0)) && p == RedSiblingRight(p0).r && View(x, p)
    {
      DownLeft(x0, p0);
      var tmp := parent.left;
      PaintLeft(tmp, BLACK, x0, p0);
      Paint(parent, RED, x0, ColorLeft(p0, BLACK));
      tmp := RotateRight(parent, x0, Colored(ColorLeft(p0, BLACK), RED));
      x, p := HoleRight(x0, RedSiblingRight(p0)), RedSiblingRight(p0).r;
      DownRight(x0, RedSiblingRight(p0));
    }

    method RemoveInnerRight(tmp: RBNode, ghost x: Hole, ghost p: Shape)
      requires View(x, p) && p.T? && p.l.T? && p.l.n == tmp && p.l.r.T?
      modifies this`root, repr
      ensures View(x, InnerNephewRight(p))
    {
      ghost var sx := HoleLeft(x, p);
      DownLeft(x, p);
      DownRight(sx, p.l);
      var oright := tmp.right;
      if oright != null {
        PaintRight(oright, BLACK, sx, p.l);
      }
      Paint(tmp, RED, sx, ColorRight(p.l, BLACK));
      oright := RotateLeft(tmp, sx, Colored(ColorRight(p.l, BLACK), RED));
      Up(sx, InnerNephewRight(p).l);
    }

    method RemoveOuterRight(parent: RBNode, ghost x: Hole, ghost p: Shape)
      requires View(x, p) && p.T? && p.n == parent && p.l.T? && p.l.l.T?
      modifies this`root, repr
      ensures View(x, OuterNephewRight(p))
    {
      ghost var sx := HoleLeft(x, p);
      DownLeft(x, p);
      DownLeft(sx, p.l);
      var tmp := parent.left;
      Paint(tmp, parent.color, sx, p.l);
      ghost var q := T(Colored(p.l, p.c), p.n, p.c, p.r);
      Up(sx, q.l);
      Paint(parent, BLACK, x, q);
      q := Colored(q, BLACK);
      DownLeft(x, q);
      if tmp.left != null {
        PaintLeft(tmp.left, BLACK, HoleLeft(x, q), q.l);
      }
      Up(HoleLeft(x, q), ColorLeft(q.l, BLACK));
      tmp := RotateRight(parent, x, T(ColorLeft(q.l, BLACK), q.n, q.c, q.r));
    }

    // In the fix-up loop the test of the code tells on which side of the parent elm hangs.
    lemma ChildSide(x: Hole, t: Shape)
      requires View(x, t) && RemoveInv(x, t) && ColorOf(t) == BLACK && RootOf(t) != root
      ensures !x.Top? && View(x.up, Wrap(x, t))
      ensures if x.n.left == RootOf(t) then ShortLeft(x.up, Wrap(x, t)) else ShortRight(x.up, Wrap(x, t))
    {
      RootAbove(x, RootOf(t), ParentOf(x));
      Up(x, t);
      if x.InRight? {
        assert Linked(x.l, x.n.left, x.n) && x.l.T?;
      }
    }

    // RB_REMOVE_COLOR
    method RemoveColor(parent0: RBNode?, elm0: RBNode?, ghost x0: Hole, ghost t0: Shape) returns (ghost t: Shape)
      requires View(x0, t0) && elm0 == RootOf(t0) && parent0 == ParentOf(x0) && RemoveInv(x0, t0)
      modifies this`root, repr
      ensures View(Top, t) && RedBlack(t)
      ensures Elems(t) == Elems(Plug(x0, t0))
    {
      var parent, elm := parent0, elm0;
      ghost var x := x0;
      t := t0;
      var last := false;
      while (elm == null || elm.color == BLACK) && elm != root
        invariant View(x, t) && elm == RootOf(t) && parent == ParentOf(x)
        invariant Elems(Plug(x, t)) == Elems(Plug(x0, t0))
        invariant if last then x.Top? && RedBlack(t) else RemoveInv(x, t)
        decreases if ColorOf(t) == RED then 0 else Depth(x) + 1
      {
        ChildSide(x, t);
        if parent.left == elm {
          parent, elm, last, x, t := RemoveFixLeft(parent, x.up, Wrap(x, t));
        } else {
          parent, elm, last, x, t := RemoveFixRight(parent, x.up, Wrap(x, t));
        }
        if last {
          break;
        }
      }
      t := RemoveDone(elm, x, t);
    }

    method RemoveDone(elm: RBNode?, ghost x: Hole, ghost t0: Shape) returns (ghost t: Shape)
      requires View(x, t0) && elm == RootOf(t0) && (ColorOf(t0) == RED || elm == root)
      requires RemoveInv(x, t0) || (x.Top? && RedBlack(t0))
      modifies this`root, repr
      ensures View(Top, t) && RedBlack(t)
      ensures Elems(t) == Elems(Plug(x, t0))
    {
      RootAbove(x, elm, ParentOf(x));
      t := t0;
      if elm != null {
        Paint(elm, BLACK, x, t);
        SameElems(x, t, Blacken(t));
        t := Blacken(t);
      }
      Zip(x, t);
      if !x.Top? { PlugRedBlack(x, t); }
      t := Plug(x, t);
    }

    // ---- The operations ----

    // The nodes in key order.
    ghost function Contents(): seq<RBNode>
      reads this
    {
      Elems(shape)
    }

    // The search loop of RB_FIND.  Only the key of elm matters.
    method Find(elm: RBNode) returns (r: RBNode?)
      requires Valid()
      ensures r != null ==> r in repr && r.key == elm.key
      ensures r == null ==> forall n :: n in repr ==> n.key != elm.key
    {
      var tmp := root;
      ghost var x, t := Top, shape;
      while tmp != null
        invariant View(x, t) && tmp == RootOf(t) && Plug(x, t) == shape
        invariant Bracket(x, elm.key)
        decreases t
      {
        Narrow(x, t, elm.key);
        if elm.key < tmp.key {
          DownLeft(x, t);
          tmp := tmp.left;
          x, t := HoleLeft(x, t), t.l;
        } else if elm.key > tmp.key {
          DownRight(x, t);
          tmp := tmp.right;
          x, t := HoleRight(x, t), t.r;
        } else {
          PlugNodes(x, t);
          return tmp;
        }
      }
      BracketMisses(x, elm.key);
      return null;
    }

    // RB_INSERT
    method Insert(elm: RBNode) returns (r: RBNode?)
      requires Valid()
      modifies this, repr, elm
      ensures Valid()
      ensures r != null ==>
        r in repr && r.key == elm.key && shape == old(shape) && repr == old(repr) && root == old(root)
      ensures r == null ==> repr == old(repr) + {elm} && forall n :: n in old(repr) ==> n.key != elm.key
      ensures elm in old(repr) ==> r == elm
    {
      var tmp, parent, comp;
      ghost var x;
      tmp, parent, comp, x := FindPlace(elm);
      if tmp != null {
        OneOfAKey(tmp, elm);
        return tmp;
      }
      AddLeaf(elm, parent, comp, x);
      r := null;
    }

    // No two nodes have the same key.
    lemma OneOfAKey(a: RBNode, b: RBNode)
      requires Valid() && a in repr && a.key == b.key
      ensures b in repr ==> a == b
    {
      var s := Contents();
      ElemsNodes(shape);
      InToSet(s, a);
      InToSet(s, b);
      if b in repr {
        var i, j :| 0 <= i < |s| && s[i] == a && 0 <= j < |s| && s[j] == b;
        assert i == j;
      }
    }

    method AddLeaf(elm: RBNode, parent: RBNode?, comp: int, ghost x: Hole)
      requires Valid() && elm !in repr
      requires Above(x, null, parent) && Plug(x, E) == shape && Bracket(x, elm.key) && (comp < 0 <==> x.InLeft?)
      modifies this, repr, elm
      ensures Valid() && repr == old(repr) + {elm}
    {
      hide Sorted, RedBlack, InsertInv, Bracket, Before, After, Plug, Elems, Above, Linked;
      LeafAdded(x, elm);
      PlugNodes(x, E);
      repr := repr + {elm};
      ghost var t := Grow(elm, parent, comp < 0, x);
      SameNodes(t, Plug(x, T(E, elm, RED, E)));
      shape := t;
    }

    // The new leaf linked and the colours restored
    method Grow(elm: RBNode, parent: RBNode?, toLeft: bool, ghost x: Hole) returns (ghost t: Shape)
      requires Above(x, null, parent) && CtxNodes(x) <= repr && elm in repr && elm !in CtxNodes(x)
      requires (toLeft <==> x.InLeft?) && InsertInv(x, T(E, elm, RED, E))
      modifies this`root, repr
      ensures View(Top, t) && RedBlack(t) && Elems(t) == Elems(Plug(x, T(E, elm, RED, E)))
    {
      hide RedBlack, InsertInv, Plug, Elems;
      Attach(elm, parent, toLeft, x);
      t := InsertColor(elm, x, T(E, elm, RED, E));
    }

    // The descent of RB_INSERT, remembering the last node passed and the side taken there.
    method FindPlace(elm: RBNode) returns (tmp: RBNode?, parent: RBNode?, comp: int, ghost x: Hole)
      requires Valid()
      ensures tmp != null ==> tmp in repr && tmp.key == elm.key
      ensures tmp == null ==> Above(x, null, parent) && Plug(x, E) == shape && Bracket(x, elm.key)
      ensures tmp == null ==> (comp < 0 <==> x.InLeft?) && forall n :: n in repr ==> n.key != elm.key
    {
      tmp, parent, comp := root, null, 0;
      x := Top;
      ghost var t := shape;
      while tmp != null
        invariant View(x, t) && tmp == RootOf(t) && parent == ParentOf(x) && Plug(x, t) == shape
        invariant Bracket(x, elm.key) && (comp < 0 <==> x.InLeft?)
        decreases t
      {
        Narrow(x, t, elm.key);
        parent := tmp;
        comp := elm.key - parent.key;
        if comp < 0 {
          DownLeft(x, t);
          tmp := tmp.left;
          x, t := HoleLeft(x, t), t.l;
        } else if comp > 0 {
          DownRight(x, t);
          tmp := tmp.right;
          x, t := HoleRight(x, t), t.r;
        } else {
          PlugNodes(x, t);
          return;
        }
      }
      BracketMisses(x, elm.key);
    }

    // The new leaf goes between the nodes before and after the hole.
    static lemma LeafAdded(x: Hole, elm: RBNode)
      requires Sorted(Elems(Plug(x, E))) && Bracket(x, elm.key) && RedBlack(Plug(x, E))
      ensures var t := Plug(x, T(E, elm, RED, E));
        Sorted(Elems(t)) && Nodes(t) == Nodes(Plug(x, E)) + {elm}
      ensures InsertInv(x, T(E, elm, RED, E))
    {
      hide Sorted, Before, After, Plug;
      UnplugRedBlack(x, E);
      PlugElems(x, E);
      PlugElems(x, T(E, elm, RED, E));
      PlugNodes(x, E);
      PlugNodes(x, T(E, elm, RED, E));
      assert Before(x) + [] + After(x) == Before(x) + After(x);
      assert [] + [elm] + [] == [elm];
      InsertedSorted(Before(x), elm, After(x));
    }

    // The step of RB_INSERT that links the new leaf, initialised by RB_SET, below its parent.
    method Attach(elm: RBNode, parent: RBNode?, toLeft: bool, ghost x: Hole)
      requires Above(x, null, parent) && CtxNodes(x) <= repr && elm in repr && elm !in CtxNodes(x)
      requires toLeft <==> x.InLeft?
      modifies this`root, elm, if x.Top? then {} else {x.n}
      ensures View(x, T(E, elm, RED, E))
    {
      assert !x.Top? ==> Above(x.up, x.n, x.n.parent);
      elm.parent := parent;
      elm.left, elm.right := null, null;
      elm.color := RED;
      if parent != null {
        if toLeft {
          parent.left := elm;
        } else {
          parent.right := elm;
        }
      } else {
        root := elm;
      }
      assert Linked(E, elm.left, elm) && Linked(E, elm.right, elm);
    }

    // RB_REMOVE
    method Remove(elm0: RBNode) returns (r: RBNode)
      requires Valid() && elm0 in repr
      modifies this, repr
      ensures Valid() && r == elm0
      ensures repr == old(repr) - {elm0}
    {
      hide RedBlack, Sorted, Before, After, Above, Linked, Elems;
      r := elm0;
      ghost var x, f := Focus(Top, shape, elm0);
      Unzip(x, f);
      ghost var t := RemoveAt(elm0, x, f);
      NodeRemoved(x, f, t);
      shape := t;
      repr := repr - {elm0};
    }

    method RemoveAt(elm0: RBNode, ghost x: Hole, ghost f: Shape) returns (ghost t: Shape)
      requires View(x, f) && f.T? && f.n == elm0 && RedBlack(Plug(x, f))
      modifies this`root, repr
      ensures View(Top, t) && RedBlack(t)
      ensures Elems(t) == Before(x) + Elems(f.l) + (Elems(f.r) + After(x))
    {
      UnplugRedBlack(x, f);
      DownLeft(x, f);
      DownRight(x, f);
      EmptyBeside(x, f);
      if elm0.left == null {
        t := RemoveSingle(elm0, elm0.right, x, f, f.r);
      } else if elm0.right == null {
        t := RemoveSingle(elm0, elm0.left, x, f, f.l);
      } else {
        t := RemoveBinary(elm0, x, f);
      }
    }

    static lemma NodeRemoved(x: Hole, f: Shape, t: Shape)
      requires f.T? && Sorted(Elems(Plug(x, f)))
      requires Elems(t) == Before(x) + Elems(f.l) + (Elems(f.r) + After(x))
      ensures Sorted(Elems(t)) && Nodes(t) == Nodes(Plug(x, f)) - {f.n}
    {
      PlugSplit(x, f);
      RemovedSorted(Before(x) + Elems(f.l), f.n, Elems(f.r) + After(x));
      ElemsNodes(Plug(x, f));
      ElemsNodes(t);
      var a, b := Before(x) + Elems(f.l), Elems(f.r) + After(x);
      ToSetConcat(a, b);
      ToSetConcat(a, [f.n]);
      ToSetConcat(a + [f.n], b);
      InToSet(a, f.n);
      InToSet(b, f.n);
    }

    // A node with at most one child: the child takes its place.
    method RemoveSingle(elm: RBNode, child: RBNode?, ghost x: Hole, ghost f: Shape, ghost ch: Shape)
      returns (ghost t: Shape)
      requires View(x, f) && f.T? && f.n == elm && RootOf(ch) == child
      requires (ch == f.r && f.l.E?) || (ch == f.l && f.r.E?)
      requires Balanced(f) && NoRedRed(f) && CtxBalanced(x, BlackHeight(f)) && CtxNoRedRed(x)
      requires ColorOf(f) == RED ==> ParentColor(x) == BLACK
      modifies this`root, repr
      ensures View(Top, t) && RedBlack(t)
      ensures Elems(t) == Elems(Plug(x, ch))
    {
      var parent := elm.parent;
      var color := elm.color;
      Unlink(elm, child, x, f, ch);
      if color == BLACK {
        t := RemoveColor(parent, child, x, ch);
      } else {
        PlugRedBlack(x, ch);
        Zip(x, ch);
        t := Plug(x, ch);
      }
    }

    method Unlink(elm: RBNode, child: RBNode?, ghost x: Hole, ghost f: Shape, ghost ch: Shape)
      requires View(x, f) && f.T? && f.n == elm && RootOf(ch) == child
      requires (ch == f.r && f.l.E?) || (ch == f.l && f.r.E?)
      modifies this`root, repr
      ensures View(x, ch) && elm !in Nodes(ch) + CtxNodes(x)
      ensures elm.parent == old(elm.parent) && elm.color == old(elm.color)
    {
      if ch == f.r { DownRight(x, f); } else { DownLeft(x, f); }
      Adopt(child, elm.parent, ch, elm);
      Redirect(elm.parent, elm, child, x);
    }

    method Adopt(child: RBNode?, parent: RBNode?, ghost ch: Shape, ghost was: RBNode)
      requires Linked(ch, child, was)
      modifies (if child == null then {} else {child})`parent
      ensures Linked(ch, child, parent)
    {
      if child != null {
        child.parent := parent;
      }
    }

    // A node with two children: its successor is spliced out and takes over its place and colour.
    method RemoveBinary(old0: RBNode, ghost x: Hole, ghost f: Shape) returns (ghost t: Shape)
      requires View(x, f) && f.T? && f.n == old0 && f.l.T? && f.r.T?
      requires RedBlack(Plug(x, f))
      modifies this`root, repr
      ensures View(Top, t) && RedBlack(t)
      ensures Elems(t) == Before(x) + Elems(f.l) + (Elems(f.r) + After(x))
    {
      DownRight(x, f);
      var elm := old0.right;
      ghost var base := HoleRight(x, f);
      ghost var y: Hole, s := Top, f.r;
      DownLeft(base, s);
      while elm.left != null
        invariant View(Under(y, base), s) && s.T? && s.n == elm && Plug(y, s) == f.r && Before(y) == []
        invariant elm.left == RootOf(s.l)
        decreases s
      {
        DownLeft(Under(y, base), s);
        elm := elm.left;
        y, s := HoleLeft(y, s), s.l;
        DownLeft(Under(y, base), s);
      }
      SuccessorElems(x, f, y, s);
      t := SpliceSuccessor(old0, elm, x, f, y, s);
    }

    method SpliceSuccessor(old0: RBNode, elm: RBNode, ghost x: Hole, ghost f: Shape, ghost y: Hole, ghost s: Shape)
      returns (ghost t: Shape)
      requires f.T? && f.n == old0 && f.l.T? && RedBlack(Plug(x, f))
      requires s.T? && s.n == elm && s.l.E? && Plug(y, s) == f.r && View(Under(y, HoleRight(x, f)), s)
      modifies this`root, repr
      ensures View(Top, t) && RedBlack(t)
      ensures Elems(t) == Elems(Plug(Under(y, InRight(x, f.l, elm, f.c)), s.r))
    {
      ghost var base, base' := HoleRight(x, f), InRight(x, f.l, elm, f.c);
      PlugUnder(y, base, s);
      UnplugRedBlack(Under(y, base), s);
      UnderSame(y, base, base', BlackHeight(s));
      UnderParent(y, base, s);
      DownRight(Under(y, base), s);
      var child := elm.right;
      var parent := elm.parent;
      var color := elm.color;
      Unlink(elm, child, Under(y, base), s, s.r);
      if elm.parent == old0 {
        parent := elm;
      }
      TakeOver(old0, elm, x, f, y, s);
      if color == BLACK {
        t := RemoveColor(parent, child, Under(y, base'), s.r);
      } else {
        PlugRedBlack(Under(y, base'), s.r);
        Zip(Under(y, base'), s.r);
        t := Plug(Under(y, base'), s.r);
      }
    }

    // The parent of the hole in y is not a node of the context around y.
    lemma UnderParent(y: Hole, base: Hole, t: Shape)
      requires View(Under(y, base), t) && !base.Top?
      ensures if y.Top? then ParentOf(Under(y, base)) == base.n else ParentOf(Under(y, base)) == y.n != base.n
    {
      if !y.Top? { UnderNodes(y.up, base); }
    }

    // The unlinked successor elm takes over the links and the colour of the removed node.
    method TakeOver(old0: RBNode, elm: RBNode, ghost x: Hole, ghost f: Shape, ghost y: Hole, ghost s: Shape)
      requires f.T? && f.n == old0 && f.l.T? && s.T? && s.n == elm
      requires View(Under(y, HoleRight(x, f)), s.r) && elm in repr
      requires elm !in Nodes(s.r) + CtxNodes(Under(y, HoleRight(x, f)))
      modifies this`root, repr
      ensures View(Under(y, InRight(x, f.l, elm, f.c)), s.r)
    {
      ghost var w := Plug(y, s.r);
      ZipTo(y, HoleRight(x, f), s.r);
      PlugNodes(y, s.r);
      UnderNodes(y, HoleRight(x, f));
      Up(HoleRight(x, f), w);
      Replace(old0, elm, x, T(f.l, old0, f.c, w));
      DownRight(x, T(f.l, elm, f.c, w));
      UnzipTo(y, InRight(x, f.l, elm, f.c), s.r);
    }

    method Replace(old0: RBNode, elm: RBNode, ghost x: Hole, ghost f: Shape)
      requires View(x, f) && f.T? && f.n == old0 && f.l.T?
      requires elm in repr && elm !in Nodes(f) && elm !in CtxNodes(x)
      modifies this`root, repr
      ensures View(x, T(f.l, elm, f.c, f.r))
    {
      var parent := old0.parent;
      Inherit(old0, elm, f, parent);
      Redirect(parent, old0, elm, x);
    }

    method Inherit(old0: RBNode, elm: RBNode, ghost f: Shape, ghost parent: RBNode?)
      requires Linked(f, old0, parent) && f.l.T? && elm !in Nodes(f) && Nodes(f) + {elm} <= repr
      modifies Nodes(f), elm
      ensures Linked(T(f.l, elm, f.c, f.r), elm, parent)
    {
      assert Linked(f.l, old0.left, old0) && Linked(f.r, old0.right, old0);
      elm.left, elm.right, elm.parent, elm.color := old0.left, old0.right, old0.parent, old0.color;
      old0.left.parent := elm;
      if old0.right != null {
        old0.right.parent := elm;
      }
      assert Linked(f.l, elm.left, elm) && Linked(f.r, elm.right, elm);
    }

    lemma {:induction false} ZipTo(y: Hole, base: Hole, t: Shape)
      requires View(Under(y, base), t)
      ensures View(base, Plug(y, t))
      decreases y
    {
      if !y.Top? {
        Up(Under(y, base), t);
        ZipTo(y.up, base, Wrap(y, t));
      }
    }

    lemma {:induction false} UnzipTo(y: Hole, base: Hole, t: Shape)
      requires View(base, Plug(y, t))
      ensures View(Under(y, base), t)
      decreases y
    {
      if !y.Top? {
        UnzipTo(y.up, base, Wrap(y, t));
        if y.InLeft? {
          DownLeft(Under(y.up, base), Wrap(y, t));
        } else {
          DownRight(Under(y.up, base), Wrap(y, t));
        }
      }
    }

    // RB_MINMAX
    method MinMax(val: int) returns (r: RBNode?)
      requires Valid()
      ensures r == null <==> Contents() == []
      ensures r != null && val < 0 ==> r == Contents()[0]
      ensures r != null && val >= 0 ==> r == Contents()[|Contents()| - 1]
    {
      var tmp := root;
      r := null;
      ghost var x, t := Top, shape;
      while tmp != null
        invariant View(x, t) && tmp == RootOf(t) && r == ParentOf(x) && Plug(x, t) == shape
        invariant if val < 0 then Before(x) == [] && !x.InRight? else After(x) == [] && !x.InLeft?
        decreases t
      {
        r := tmp;
        if val < 0 {
          DownLeft(x, t);
          tmp := tmp.left;
          x, t := HoleLeft(x, t), t.l;
        } else {
          DownRight(x, t);
          tmp := tmp.right;
          x, t := HoleRight(x, t), t.r;
        }
      }
      PlugElems(x, t);
    }

    // RB_NEXT, for the element at position i of the tree, found from the links alone.
    method Next(elm0: RBNode, ghost i: nat) returns (elm: RBNode?)
      requires Valid() && i < |Contents()| && Contents()[i] == elm0
      ensures elm == if i + 1 < |Contents()| then Contents()[i + 1] else null
    {
      ElemsNodes(shape);
      InToSet(Contents(), elm0);
      ghost var x, t := Focus(Top, shape, elm0);
      Unzip(x, t);
      PlugSplit(x, t);
      ghost var before, after := Before(x) + Elems(t.l), Elems(t.r) + After(x);
      FollowedBy(before, elm0, after, i);
      DownRight(x, t);
      if elm0.right != null {
        elm := LeftMost(elm0.right, HoleRight(x, t), t.r);
        assert after[0] == elm;
      } else {
        assert after == After(x);
        elm := Climb(elm0, x, t);
      }
    }

    method Climb(elm0: RBNode, ghost x0: Hole, ghost t0: Shape) returns (elm: RBNode?)
      requires View(x0, t0) && t0.T? && t0.n == elm0
      ensures elm == FirstOf(After(x0))
    {
      elm := elm0;
      ghost var x, t := x0, t0;
      SideOf(x, t);
      if elm.parent != null && elm == elm.parent.left {
        elm := elm.parent;
      } else {
        while elm.parent != null && elm == elm.parent.right
          invariant View(x, t) && t.T? && elm == t.n && After(x) == After(x0)
          decreases x
        {
          SideOf(x, t);
          Up(x, t);
          x, t := x.up, Wrap(x, t);
          elm := elm.parent;
        }
        SideOf(x, t);
        elm := elm.parent;
      }
    }

    method LeftMost(elm0: RBNode, ghost x0: Hole, ghost t0: Shape) returns (elm: RBNode)
      requires View(x0, t0) && t0.T? && t0.n == elm0
      ensures Elems(t0) != [] && elm == Elems(t0)[0]
    {
      elm := elm0;
      ghost var x, y: Hole, t := x0, Top, t0;
      DownLeft(x, t);
      while elm.left != null
        invariant View(x, t) && t.T? && elm == t.n && Plug(y, t) == t0 && Before(y) == []
        invariant elm.left == RootOf(t.l)
        decreases t
      {
        DownLeft(x, t);
        elm := elm.left;
        x, y, t := HoleLeft(x, t), HoleLeft(y, t), t.l;
        DownLeft(x, t);
      }
      PlugElems(y, t);
    }

    // Which child of its parent the node in focus is can be read off the links.
    lemma SideOf(x: Hole, t: Shape)
      requires View(x, t) && t.T?
      ensures t.n.parent == ParentOf(x)
      ensures x.InLeft? <==> t.n.parent != null && t.n == t.n.parent.left
      ensures x.InRight? <==> t.n.parent != null && t.n == t.n.parent.right
    {
      if x.InLeft? { assert Linked(x.r, x.n.right, x.n); }
      if x.InRight? { assert Linked(x.l, x.n.left, x.n); }
    }

    // RB_FOREACH: from the minimum, along RB_NEXT, until it returns NULL.
    method Foreach() returns (visited: seq<RBNode>)
      requires Valid()
      ensures visited == Contents()
    {
      visited := [];
      var x := MinMax(-1);
      ghost var c := Contents();
      while x != null
        invariant Valid() && c == Contents()
        invariant |visited| <= |c| && visited == c[..|visited|]
        invariant x == if |visited| < |c| then c[|visited|] else null
        decreases |c| - |visited|
      {
        visited := visited + [x];
        x := Next(x, |visited| - 1);
      }
    }

    // RB_FIND visits at most one node per level, and there are at most 2 lg(n + 1) levels.
    lemma LogarithmicHeight()
      requires Valid()
      ensures Pow2(Height(shape)) <= (|Contents()| + 1) * (|Contents()| + 1)
    {
      HeightLogarithmic(shape);
      ElemsNodes(shape);
    }
  }
}
