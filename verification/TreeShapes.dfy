/** Shapes of binary search trees.

    The macros of core/btree.h work on linked nodes.  This module gives the mathematical
    value such a linked structure stands for: a `Tree` of node references, and a `Ctx`,
    which is a tree with one subtree cut out.  A `Ctx` lists the ancestors of the hole
    from the innermost to the root, so climbing by parent links peels one layer off.
    `C` is whatever else a macro family stores in a node (the colour of a red-black node). */
module TreeShapes {

  import Lists

  datatype Tree<N, C> =
    | E
    | T(l: Tree<N, C>, n: N, c: C, r: Tree<N, C>)

  datatype Ctx<N, C> =
    | Top
    | InLeft(up: Ctx<N, C>, n: N, c: C, r: Tree<N, C>)   // the hole is the left child of n
    | InRight(up: Ctx<N, C>, l: Tree<N, C>, n: N, c: C)  // the hole is the right child of n

  function Plug<N, C>(x: Ctx<N, C>, t: Tree<N, C>): Tree<N, C>
    decreases x
  {
    match x
    case Top => t
    case InLeft(up, n, c, r) => Plug(up, T(t, n, c, r))
    case InRight(up, l, n, c) => Plug(up, T(l, n, c, t))
  }

  // The subtree one level above the hole, and the holes one level below a subtree.
  function Wrap<N, C>(x: Ctx<N, C>, t: Tree<N, C>): Tree<N, C>
    requires !x.Top?
  {
    if x.InLeft? then T(t, x.n, x.c, x.r) else T(x.l, x.n, x.c, t)
  }

  function HoleLeft<N, C>(x: Ctx<N, C>, t: Tree<N, C>): Ctx<N, C>
    requires t.T?
  {
    InLeft(x, t.n, t.c, t.r)
  }

  function HoleRight<N, C>(x: Ctx<N, C>, t: Tree<N, C>): Ctx<N, C>
    requires t.T?
  {
    InRight(x, t.l, t.n, t.c)
  }

  function TurnLeft<N, C>(t: Tree<N, C>): Tree<N, C>
    requires t.T? && t.r.T?
  {
    T(T(t.l, t.n, t.c, t.r.l), t.r.n, t.r.c, t.r.r)
  }

  function TurnRight<N, C>(t: Tree<N, C>): Tree<N, C>
    requires t.T? && t.l.T?
  {
    T(t.l.l, t.l.n, t.l.c, T(t.l.r, t.n, t.c, t.r))
  }

  // The context y hung into the hole of another context.
  function Under<N, C>(y: Ctx<N, C>, base: Ctx<N, C>): Ctx<N, C> {
    match y
    case Top => base
    case InLeft(up, n, c, r) => InLeft(Under(up, base), n, c, r)
    case InRight(up, l, n, c) => InRight(Under(up, base), l, n, c)
  }

  // The nodes of a tree in key order.
  function Elems<N, C>(t: Tree<N, C>): seq<N> {
    match t
    case E => []
    case T(l, n, _, r) => Elems(l) + [n] + Elems(r)
  }

  // The nodes of a context that come before, and after, the hole.
  function Before<N, C>(x: Ctx<N, C>): seq<N> {
    match x
    case Top => []
    case InLeft(up, _, _, _) => Before(up)
    case InRight(up, l, n, _) => Before(up) + Elems(l) + [n]
  }

  function After<N, C>(x: Ctx<N, C>): seq<N> {
    match x
    case Top => []
    case InLeft(up, n, _, r) => [n] + Elems(r) + After(up)
    case InRight(up, _, _, _) => After(up)
  }

  function Nodes<N, C>(t: Tree<N, C>): set<N> {
    match t
    case E => {}
    case T(l, n, _, r) => Nodes(l) + {n} + Nodes(r)
  }

  function CtxNodes<N, C>(x: Ctx<N, C>): set<N> {
    match x
    case Top => {}
    case InLeft(up, n, _, r) => CtxNodes(up) + {n} + Nodes(r)
    case InRight(up, l, n, _) => CtxNodes(up) + {n} + Nodes(l)
  }

  // How many ancestors the hole has.
  function Depth<N, C>(x: Ctx<N, C>): nat {
    match x
    case Top => 0
    case InLeft(up, _, _, _) => 1 + Depth(up)
    case InRight(up, _, _, _) => 1 + Depth(up)
  }

  function Size<N, C>(t: Tree<N, C>): nat {
    match t
    case E => 0
    case T(l, _, _, r) => Size(l) + 1 + Size(r)
  }

  function Height<N, C>(t: Tree<N, C>): nat {
    match t
    case E => 0
    case T(l, _, _, r) => 1 + if Height(l) >= Height(r) then Height(l) else Height(r)
  }

  lemma {:induction false} PlugElems<N, C>(x: Ctx<N, C>, t: Tree<N, C>)
    ensures Elems(Plug(x, t)) == Before(x) + Elems(t) + After(x)
    decreases x
  {
    match x
    case Top =>
      assert [] + Elems(t) + [] == Elems(t);
    case InLeft(up, n, c, r) =>
      PlugElems(up, T(t, n, c, r));
      Lists.Assoc(Elems(t), [n], Elems(r));
      Lists.Assoc(Before(up), Elems(t), [n] + Elems(r));
      Lists.Assoc(Before(up) + Elems(t), [n] + Elems(r), After(up));
    case InRight(up, l, n, c) =>
      PlugElems(up, T(l, n, c, t));
      Lists.Assoc(Before(up), Elems(l) + [n], Elems(t));
      Lists.Assoc(Before(up), Elems(l), [n]);
  }

  // Replacing a subtree by one with the same nodes in the same order changes no order.
  lemma SameElems<N, C>(x: Ctx<N, C>, t: Tree<N, C>, u: Tree<N, C>)
    requires Elems(t) == Elems(u)
    ensures Elems(Plug(x, t)) == Elems(Plug(x, u))
  {
    PlugElems(x, t);
    PlugElems(x, u);
  }

  // A rotation keeps the order of the nodes.
  lemma TurnLeftElems<N, C>(t: Tree<N, C>)
    requires t.T? && t.r.T?
    ensures Elems(TurnLeft(t)) == Elems(t)
  {
    var a, b, d := Elems(t.l) + [t.n], Elems(t.r.l), Elems(t.r.r);
    assert Elems(t.r) == (b + [t.r.n]) + d;
    assert Elems(TurnLeft(t).l) == a + b;
    Lists.Assoc(a, b, [t.r.n]);
    Lists.Assoc(a, b + [t.r.n], d);
  }

  lemma TurnRightElems<N, C>(t: Tree<N, C>)
    requires t.T? && t.l.T?
    ensures Elems(TurnRight(t)) == Elems(t)
  {
    TurnLeftElems(TurnRight(t));
  }

  // The node at the root of a focused subtree, and everything on either side of it.
  lemma PlugSplit<N, C>(x: Ctx<N, C>, t: Tree<N, C>)
    requires t.T?
    ensures Elems(Plug(x, t)) == (Before(x) + Elems(t.l)) + [t.n] + (Elems(t.r) + After(x))
  {
    PlugElems(x, t);
    Lists.Assoc(Elems(t.l), [t.n], Elems(t.r));
    Lists.Assoc(Before(x), Elems(t.l), [t.n] + Elems(t.r));
    Lists.Assoc(Before(x) + Elems(t.l), [t.n] + Elems(t.r), After(x));
    Lists.Assoc([t.n], Elems(t.r), After(x));
    Lists.Assoc(Before(x) + Elems(t.l), [t.n], Elems(t.r) + After(x));
  }

  lemma {:induction false} PlugUnder<N, C>(y: Ctx<N, C>, base: Ctx<N, C>, t: Tree<N, C>)
    ensures Plug(Under(y, base), t) == Plug(base, Plug(y, t))
    decreases y
  {
    if !y.Top? { PlugUnder(y.up, base, Wrap(y, t)); }
  }

  lemma {:induction false} UnderNodes<N, C>(y: Ctx<N, C>, base: Ctx<N, C>)
    ensures CtxNodes(Under(y, base)) == CtxNodes(y) + CtxNodes(base)
  {
    if !y.Top? { UnderNodes(y.up, base); }
  }

  // Splicing out the first node of the right subtree and putting it at the root.
  lemma SuccessorElems<N, C>(x: Ctx<N, C>, f: Tree<N, C>, y: Ctx<N, C>, s: Tree<N, C>)
    requires f.T? && s.T? && s.l.E? && Plug(y, s) == f.r && Before(y) == []
    ensures Elems(Plug(Under(y, InRight(x, f.l, s.n, f.c)), s.r))
         == Before(x) + Elems(f.l) + (Elems(f.r) + After(x))
  {
    var base, w := InRight(x, f.l, s.n, f.c), Plug(y, s.r);
    PlugUnder(y, base, s.r);
    PlugElems(base, w);
    FirstElem(y, s);
    Lists.Assoc(Before(x) + Elems(f.l), [s.n], Elems(w));
    Lists.Assoc(Before(x) + Elems(f.l), Elems(f.r), After(x));
  }

  lemma FirstElem<N, C>(y: Ctx<N, C>, s: Tree<N, C>)
    requires s.T? && s.l.E? && Before(y) == []
    ensures Elems(Plug(y, s)) == [s.n] + Elems(Plug(y, s.r))
  {
    PlugSplit(y, s);
    PlugElems(y, s.r);
    assert Before(y) + Elems(s.l) == [];
    assert [] + [s.n] == [s.n];
    assert [] + Elems(s.r) == Elems(s.r);
  }

  // A node without a left or a right subtree can be dropped for the other subtree.
  lemma EmptyBeside<N, C>(x: Ctx<N, C>, f: Tree<N, C>)
    requires f.T?
    ensures f.l.E? ==> Elems(Plug(x, f.r)) == Before(x) + Elems(f.l) + (Elems(f.r) + After(x))
    ensures f.r.E? ==> Elems(Plug(x, f.l)) == Before(x) + Elems(f.l) + (Elems(f.r) + After(x))
  {
    PlugElems(x, f.l);
    PlugElems(x, f.r);
    Lists.Assoc(Before(x), Elems(f.r), After(x));
    assert Before(x) + [] == Before(x);
    assert [] + After(x) == After(x);
  }

  lemma {:induction false} PlugNodes<N, C>(x: Ctx<N, C>, t: Tree<N, C>)
    ensures Nodes(Plug(x, t)) == CtxNodes(x) + Nodes(t)
    decreases x
  {
    match x
    case Top =>
    case InLeft(up, n, c, r) => PlugNodes(up, T(t, n, c, r));
    case InRight(up, l, n, c) => PlugNodes(up, T(l, n, c, t));
  }

  function ToSet<X>(s: seq<X>): set<X> {
    if s == [] then {} else {s[0]} + ToSet(s[1..])
  }

  lemma {:induction false} InToSet<X>(s: seq<X>, x: X)
    ensures x in ToSet(s) <==> x in s
  {
    if s != [] {
      assert s == [s[0]] + s[1..];
      InToSet(s[1..], x);
    }
  }

  lemma {:induction false} ToSetConcat<X>(s: seq<X>, u: seq<X>)
    ensures ToSet(s + u) == ToSet(s) + ToSet(u)
  {
    if s == [] {
      assert s + u == u;
    } else {
      assert (s + u)[1..] == s[1..] + u;
      ToSetConcat(s[1..], u);
    }
  }

  lemma {:induction false} ElemsNodes<N, C>(t: Tree<N, C>)
    ensures Nodes(t) == ToSet(Elems(t))
    ensures |Elems(t)| == Size(t)
  {
    if t.T? {
      ElemsNodes(t.l);
      ElemsNodes(t.r);
      ToSetConcat(Elems(t.l), [t.n]);
      ToSetConcat(Elems(t.l) + [t.n], Elems(t.r));
    }
  }

  lemma SameNodes<N, C>(t: Tree<N, C>, u: Tree<N, C>)
    requires Elems(t) == Elems(u)
    ensures Nodes(t) == Nodes(u)
  {
    ElemsNodes(t);
    ElemsNodes(u);
  }

  // The nodes of the tree outside the focus, and the focus.
  lemma PlugSets<N, C>(x: Ctx<N, C>, t: Tree<N, C>)
    ensures Nodes(Plug(x, t)) == ToSet(Before(x)) + ToSet(Elems(t)) + ToSet(After(x))
  {
    ElemsNodes(Plug(x, t));
    PlugElems(x, t);
    ToSetConcat(Before(x), Elems(t));
    ToSetConcat(Before(x) + Elems(t), After(x));
  }

  // Every node of a tree can be focused on: there is a context whose hole holds the
  // subtree rooted at that node.
  lemma {:induction false} Focus<N, C>(x: Ctx<N, C>, t: Tree<N, C>, n: N) returns (y: Ctx<N, C>, f: Tree<N, C>)
    requires n in Nodes(t)
    ensures f.T? && f.n == n
    ensures Plug(y, f) == Plug(x, t)
    decreases t
  {
    if t.n == n {
      y, f := x, t;
    } else if n in Nodes(t.l) {
      y, f := Focus(InLeft(x, t.n, t.c, t.r), t.l, n);
    } else {
      y, f := Focus(InRight(x, t.l, t.n, t.c), t.r, n);
    }
  }
}
