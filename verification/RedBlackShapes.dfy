/** The red-black conditions of core/btree.h, stated on tree shapes. */
module RedBlackShapes {
  import opened Powers
  import opened TreeShapes

  datatype Color = BLACK | RED

  function ColorOf<N>(t: Tree<N, Color>): Color {
    if t.T? then t.c else BLACK  // a missing child counts as black
  }

  // Colour of the parent of the hole; there is no red node that could be the root.
  function ParentColor<N>(x: Ctx<N, Color>): Color {
    if x.Top? then RED else x.c
  }

  function Blacken<N>(t: Tree<N, Color>): Tree<N, Color> {
    if t.T? then t.(c := BLACK) else t
  }

  function Colored<N>(t: Tree<N, Color>, c: Color): Tree<N, Color>
    requires t.T?
  {
    T(t.l, t.n, c, t.r)
  }

  function ColorLeft<N>(t: Tree<N, Color>, c: Color): (u: Tree<N, Color>)
    requires t.T? && t.l.T?
    ensures u.T?
  {
    T(Colored(t.l, c), t.n, t.c, t.r)
  }

  function ColorRight<N>(t: Tree<N, Color>, c: Color): (u: Tree<N, Color>)
    requires t.T? && t.r.T?
    ensures u.T?
  {
    T(t.l, t.n, t.c, Colored(t.r, c))
  }

  function Weight(c: Color): nat { if c == BLACK then 1 else 0 }

  // Number of black nodes on the leftmost path; `Balanced` makes it that of every path.
  function BlackHeight<N>(t: Tree<N, Color>): nat {
    match t
    case E => 0
    case T(l, _, c, _) => BlackHeight(l) + Weight(c)
  }

  predicate Balanced<N>(t: Tree<N, Color>) {
    t.T? ==> Balanced(t.l) && Balanced(t.r) && BlackHeight(t.l) == BlackHeight(t.r)
  }

  predicate NoRedRed<N>(t: Tree<N, Color>) {
    t.T? ==>
      && NoRedRed(t.l) && NoRedRed(t.r)
      && (t.c == RED ==> ColorOf(t.l) == BLACK && ColorOf(t.r) == BLACK)
  }

  predicate RedBlack<N>(t: Tree<N, Color>) {
    Balanced(t) && NoRedRed(t) && ColorOf(t) == BLACK
  }

  // The context becomes balanced when its hole is filled with a tree of black height h.
  predicate CtxBalanced<N>(x: Ctx<N, Color>, h: nat) {
    match x
    case Top => true
    case InLeft(up, _, c, r) => Balanced(r) && BlackHeight(r) == h && CtxBalanced(up, h + Weight(c))
    case InRight(up, l, _, c) => Balanced(l) && BlackHeight(l) == h && CtxBalanced(up, h + Weight(c))
  }

  predicate CtxNoRedRed<N>(x: Ctx<N, Color>) {
    match x
    case Top => true
    case InLeft(up, _, c, r) =>
      NoRedRed(r) && CtxNoRedRed(up) && (c == RED ==> ColorOf(r) == BLACK && ParentColor(up) == BLACK)
    case InRight(up, l, _, c) =>
      NoRedRed(l) && CtxNoRedRed(up) && (c == RED ==> ColorOf(l) == BLACK && ParentColor(up) == BLACK)
  }

  // What the insertion fix-up loop keeps: the tree is red-black except that the red node
  // in focus may be the root or may have a red parent.
  predicate InsertInv<N>(x: Ctx<N, Color>, t: Tree<N, Color>) {
    && t.T? && t.c == RED && Balanced(t) && NoRedRed(t)
    && CtxBalanced(x, BlackHeight(t)) && CtxNoRedRed(x)
  }

  // What the removal fix-up loop keeps: paths through the focus are one black node short,
  // and colouring the focus black cannot break the colour rule.
  predicate RemoveInv<N>(x: Ctx<N, Color>, t: Tree<N, Color>) {
    && Balanced(t) && NoRedRed(Blacken(t))
    && CtxBalanced(x, BlackHeight(t) + 1) && CtxNoRedRed(x)
  }

  lemma {:induction false} PlugRedBlack<N>(x: Ctx<N, Color>, t: Tree<N, Color>)
    requires Balanced(t) && NoRedRed(t)
    requires CtxBalanced(x, BlackHeight(t)) && CtxNoRedRed(x)
    requires ColorOf(t) == RED ==> ParentColor(x) == BLACK
    ensures RedBlack(Plug(x, t))
    decreases x
  {
    match x
    case Top =>
    case InLeft(up, n, c, r) => PlugRedBlack(up, T(t, n, c, r));
    case InRight(up, l, n, c) => PlugRedBlack(up, T(l, n, c, t));
  }

  // The converse: cutting a red-black tree anywhere leaves a red-black context.
  lemma {:induction false} UnplugRedBlack<N>(x: Ctx<N, Color>, t: Tree<N, Color>)
    requires RedBlack(Plug(x, t))
    ensures Balanced(t) && NoRedRed(t)
    ensures CtxBalanced(x, BlackHeight(t)) && CtxNoRedRed(x)
    ensures ColorOf(t) == RED ==> ParentColor(x) == BLACK
    decreases x
  {
    match x
    case Top =>
    case InLeft(up, n, c, r) => UnplugRedBlack(up, T(t, n, c, r));
    case InRight(up, l, n, c) => UnplugRedBlack(up, T(l, n, c, t));
  }

  // The conditions on a context do not look at which node is where.
  lemma {:induction false} UnderSame<N>(y: Ctx<N, Color>, base: Ctx<N, Color>, base': Ctx<N, Color>, h: nat)
    requires base.InRight? && base'.InRight?
    requires base.up == base'.up && base.l == base'.l && base.c == base'.c
    ensures CtxBalanced(Under(y, base), h) == CtxBalanced(Under(y, base'), h)
    ensures CtxNoRedRed(Under(y, base)) == CtxNoRedRed(Under(y, base'))
    ensures ParentColor(Under(y, base)) == ParentColor(Under(y, base'))
    decreases y
  {
    if !y.Top? { UnderSame(y.up, base, base', h + Weight(y.c)); }
  }

  // What RB_INSERT_COLOR makes of the subtree at the grandparent.  With a red uncle it
  // recolours; with a black one it rotates, twice if the node in focus is an inner grandchild.
  function Raised<N>(g: Tree<N, Color>): Tree<N, Color>
    requires g.T? && g.l.T? && g.r.T?
  {
    Colored(ColorLeft(ColorRight(g, BLACK), BLACK), RED)
  }

  function TurnedLeft<N>(g: Tree<N, Color>, inner: bool): (t: Tree<N, Color>)
    requires g.T? && g.l.T? && (inner ==> g.l.r.T?)
    ensures t.T?
  {
    TurnRight(Colored(ColorLeft(if inner then g.(l := TurnLeft(g.l)) else g, BLACK), RED))
  }

  function TurnedRight<N>(g: Tree<N, Color>, inner: bool): (t: Tree<N, Color>)
    requires g.T? && g.r.T? && (inner ==> g.r.l.T?)
    ensures t.T?
  {
    TurnLeft(Colored(ColorRight(if inner then g.(r := TurnRight(g.r)) else g, BLACK), RED))
  }

  lemma RaisedInv<N>(x: Ctx<N, Color>, t: Tree<N, Color>)
    requires InsertInv(x, t) && !x.Top? && x.c == RED && !x.up.Top?
    requires var g := Wrap(x.up, Wrap(x, t)); g.l.T? && g.r.T? && g.l.c == RED && g.r.c == RED
    ensures var g := Wrap(x.up, Wrap(x, t)); InsertInv(x.up.up, Raised(g)) && Elems(Raised(g)) == Elems(g)
  {
    assert CtxBalanced(x.up, BlackHeight(t)) && CtxNoRedRed(x.up);
    var g := Wrap(x.up, Wrap(x, t));
    var u := Raised(g);
    assert Balanced(g.l) && Balanced(g.r) && BlackHeight(g.l) == BlackHeight(g.r);
    assert Balanced(u.l) && NoRedRed(u.l) && BlackHeight(u.l) == BlackHeight(g.l) + 1;
    assert Balanced(u.r) && NoRedRed(u.r) && BlackHeight(u.r) == BlackHeight(g.r) + 1;
    assert Elems(u.l) == Elems(g.l) && Elems(u.r) == Elems(g.r);
    assert CtxBalanced(x.up.up, BlackHeight(u));
  }

  lemma TurnedLeftInv<N>(x: Ctx<N, Color>, t: Tree<N, Color>)
    requires InsertInv(x, t) && !x.Top? && x.c == RED && x.up.InLeft? && ColorOf(x.up.r) == BLACK
    ensures var g := Wrap(x.up, Wrap(x, t));
      var u := TurnedLeft(g, x.InRight?);
      InsertInv(HoleLeft(x.up.up, u), u.l) && Elems(u) == Elems(g)
  {
    assert CtxBalanced(x.up, BlackHeight(t)) && CtxNoRedRed(x.up);
    var g := Wrap(x.up, Wrap(x, t));
    var u := TurnedLeft(g, x.InRight?);
    var g' := if x.InRight? then T(TurnLeft(g.l), g.n, g.c, g.r) else g;
    if x.InRight? { TurnLeftElems(g.l); }
    var d := Colored(ColorLeft(g', BLACK), RED);
    assert Elems(d.l) == Elems(g'.l);
    assert Elems(g') == Elems(g);
    TurnRightElems(d);
    assert Balanced(u.l) && NoRedRed(u.l) && BlackHeight(u.l) == BlackHeight(t);
    assert Balanced(u.r) && NoRedRed(u.r) && BlackHeight(u.r) == BlackHeight(t);
    assert CtxBalanced(x.up.up, BlackHeight(t) + 1);
  }

  lemma TurnedRightInv<N>(x: Ctx<N, Color>, t: Tree<N, Color>)
    requires InsertInv(x, t) && !x.Top? && x.c == RED && x.up.InRight? && ColorOf(x.up.l) == BLACK
    ensures var g := Wrap(x.up, Wrap(x, t));
      var u := TurnedRight(g, x.InLeft?);
      InsertInv(HoleRight(x.up.up, u), u.r) && Elems(u) == Elems(g)
  {
    assert CtxBalanced(x.up, BlackHeight(t)) && CtxNoRedRed(x.up);
    var g := Wrap(x.up, Wrap(x, t));
    var u := TurnedRight(g, x.InLeft?);
    var g' := if x.InLeft? then T(g.l, g.n, g.c, TurnRight(g.r)) else g;
    if x.InLeft? { TurnRightElems(g.r); }
    var d := Colored(ColorRight(g', BLACK), RED);
    assert Elems(d.r) == Elems(g'.r);
    assert Elems(g') == Elems(g);
    TurnLeftElems(d);
    assert Balanced(u.l) && NoRedRed(u.l) && BlackHeight(u.l) == BlackHeight(t);
    assert Balanced(u.r) && NoRedRed(u.r) && BlackHeight(u.r) == BlackHeight(t);
    assert CtxBalanced(x.up.up, BlackHeight(t) + 1);
  }

  // What RB_REMOVE_COLOR makes of the subtree p at the parent, when the left child of p
  // is the one a black node short.
  function RedSiblingLeft<N>(p: Tree<N, Color>): (u: Tree<N, Color>)
    requires p.T? && p.r.T?
    ensures u.T? && u.l.T?
  {
    TurnLeft(Colored(ColorRight(p, BLACK), RED))
  }

  function InnerNephewLeft<N>(p: Tree<N, Color>): (u: Tree<N, Color>)
    requires p.T? && p.r.T? && p.r.l.T?
    ensures u.T? && u.r.T?
  {
    T(p.l, p.n, p.c, TurnRight(Colored(ColorLeft(p.r, BLACK), RED)))
  }

  function OuterNephewLeft<N>(p: Tree<N, Color>): (u: Tree<N, Color>)
    requires p.T? && p.r.T? && p.r.r.T?
    ensures u.T?
  {
    TurnLeft(Colored(T(p.l, p.n, p.c, Colored(ColorRight(p.r, BLACK), p.c)), BLACK))
  }

  predicate ShortLeft<N>(up: Ctx<N, Color>, p: Tree<N, Color>) {
    p.T? && RemoveInv(HoleLeft(up, p), p.l) && ColorOf(p.l) == BLACK
  }

  lemma ShortLeftSibling<N>(up: Ctx<N, Color>, p: Tree<N, Color>)
    requires ShortLeft(up, p)
    ensures p.r.T? && (p.r.c == RED ==> p.r.l.T?)
  {
    if p.r.T? && p.r.c == RED { assert BlackHeight(p.r.l) == BlackHeight(p.l) + 1; }
  }

  lemma RedSiblingLeftInv<N>(up: Ctx<N, Color>, p: Tree<N, Color>)
    requires ShortLeft(up, p) && p.r.T? && p.r.c == RED
    ensures var u := RedSiblingLeft(p);
      ShortLeft(HoleLeft(up, u), u.l) && u.l.c == RED && ColorOf(u.l.r) == BLACK && Elems(u) == Elems(p)
  {
    var d := Colored(ColorRight(p, BLACK), RED);
    assert Elems(d.r) == Elems(p.r);
    TurnLeftElems(d);
    assert CtxBalanced(up, BlackHeight(p.l) + 2) && CtxNoRedRed(up);
    var u := RedSiblingLeft(p);
    assert CtxBalanced(HoleLeft(up, u), BlackHeight(p.l) + 1);
    assert CtxNoRedRed(HoleLeft(up, u));
  }

  lemma BlackNephewsLeftInv<N>(up: Ctx<N, Color>, p: Tree<N, Color>)
    requires ShortLeft(up, p) && p.r.T? && p.r.c == BLACK
    requires ColorOf(p.r.l) == BLACK && ColorOf(p.r.r) == BLACK
    ensures RemoveInv(up, ColorRight(p, RED)) && Elems(ColorRight(p, RED)) == Elems(p)
  {
    var u := ColorRight(p, RED);
    assert Elems(u.r) == Elems(p.r);
    assert NoRedRed(u.r) && Balanced(u.r);
  }

  lemma InnerNephewLeftInv<N>(up: Ctx<N, Color>, p: Tree<N, Color>)
    requires ShortLeft(up, p) && p.r.T? && p.r.c == BLACK
    requires p.r.l.T? && p.r.l.c == RED && ColorOf(p.r.r) == BLACK
    ensures var u := InnerNephewLeft(p);
      ShortLeft(up, u) && u.r.c == BLACK && u.r.r.T? && u.r.r.c == RED && Elems(u) == Elems(p)
  {
    var d := Colored(ColorLeft(p.r, BLACK), RED);
    assert Elems(d.l) == Elems(p.r.l);
    TurnRightElems(d);
    var u := InnerNephewLeft(p);
    assert Balanced(p.r.l) && NoRedRed(p.r.l);
    assert Balanced(u.r.r) && NoRedRed(u.r.r);
    assert Balanced(u.r) && NoRedRed(u.r) && BlackHeight(u.r) == BlackHeight(p.r);
  }

  lemma OuterNephewLeftInv<N>(up: Ctx<N, Color>, p: Tree<N, Color>)
    requires ShortLeft(up, p) && p.r.T? && p.r.c == BLACK && p.r.r.T? && p.r.r.c == RED
    ensures var u := OuterNephewLeft(p);
      RedBlack(Plug(up, u)) && Elems(u) == Elems(p)
  {
    var d := Colored(T(p.l, p.n, p.c, Colored(ColorRight(p.r, BLACK), p.c)), BLACK);
    assert Elems(Colored(p.r.r, BLACK)) == Elems(p.r.r);
    assert Elems(d.r) == Elems(p.r);
    TurnLeftElems(d);
    var u := OuterNephewLeft(p);
    assert Balanced(p.r.r) && NoRedRed(p.r.r);
    assert Balanced(u.l) && NoRedRed(u.l) && BlackHeight(u.l) == BlackHeight(p.l) + 1;
    assert Balanced(u.r) && NoRedRed(u.r) && BlackHeight(u.r) == BlackHeight(p.l) + 1;
    PlugRedBlack(up, u);
  }

  // The same for the right child.
  function RedSiblingRight<N>(p: Tree<N, Color>): (u: Tree<N, Color>)
    requires p.T? && p.l.T?
    ensures u.T? && u.r.T?
  {
    TurnRight(Colored(ColorLeft(p, BLACK), RED))
  }

  function InnerNephewRight<N>(p: Tree<N, Color>): (u: Tree<N, Color>)
    requires p.T? && p.l.T? && p.l.r.T?
    ensures u.T? && u.l.T?
  {
    T(TurnLeft(Colored(ColorRight(p.l, BLACK), RED)), p.n, p.c, p.r)
  }

  function OuterNephewRight<N>(p: Tree<N, Color>): (u: Tree<N, Color>)
    requires p.T? && p.l.T? && p.l.l.T?
    ensures u.T?
  {
    TurnRight(Colored(T(Colored(ColorLeft(p.l, BLACK), p.c), p.n, p.c, p.r), BLACK))
  }

  predicate ShortRight<N>(up: Ctx<N, Color>, p: Tree<N, Color>) {
    p.T? && RemoveInv(HoleRight(up, p), p.r) && ColorOf(p.r) == BLACK
  }

  lemma ShortRightSibling<N>(up: Ctx<N, Color>, p: Tree<N, Color>)
    requires ShortRight(up, p)
    ensures p.l.T? && (p.l.c == RED ==> p.l.r.T?)
  {
    if p.l.T? && p.l.c == RED { assert BlackHeight(p.l.r) == BlackHeight(p.r) + 1; }
  }

  lemma RedSiblingRightInv<N>(up: Ctx<N, Color>, p: Tree<N, Color>)
    requires ShortRight(up, p) && p.l.T? && p.l.c == RED
    ensures var u := RedSiblingRight(p);
      ShortRight(HoleRight(up, u), u.r) && u.r.c == RED && ColorOf(u.r.l) == BLACK && Elems(u) == Elems(p)
  {
    var d := Colored(ColorLeft(p, BLACK), RED);
    assert Elems(d.l) == Elems(p.l);
    TurnRightElems(d);
    assert CtxBalanced(up, BlackHeight(p.r) + 2) && CtxNoRedRed(up);
    var u := RedSiblingRight(p);
    assert CtxBalanced(HoleRight(up, u), BlackHeight(p.r) + 1);
    assert CtxNoRedRed(HoleRight(up, u));
  }

  lemma BlackNephewsRightInv<N>(up: Ctx<N, Color>, p: Tree<N, Color>)
    requires ShortRight(up, p) && p.l.T? && p.l.c == BLACK
    requires ColorOf(p.l.r) == BLACK && ColorOf(p.l.l) == BLACK
    ensures RemoveInv(up, ColorLeft(p, RED)) && Elems(ColorLeft(p, RED)) == Elems(p)
  {
    var u := ColorLeft(p, RED);
    assert Elems(u.l) == Elems(p.l);
    assert NoRedRed(u.l) && Balanced(u.l);
  }

  lemma InnerNephewRightInv<N>(up: Ctx<N, Color>, p: Tree<N, Color>)
    requires ShortRight(up, p) && p.l.T? && p.l.c == BLACK
    requires p.l.r.T? && p.l.r.c == RED && ColorOf(p.l.l) == BLACK
    ensures var u := InnerNephewRight(p);
      ShortRight(up, u) && u.l.c == BLACK && u.l.l.T? && u.l.l.c == RED && Elems(u) == Elems(p)
  {
    var d := Colored(ColorRight(p.l, BLACK), RED);
    assert Elems(d.r) == Elems(p.l.r);
    TurnLeftElems(d);
    var u := InnerNephewRight(p);
    assert Balanced(p.l.r) && NoRedRed(p.l.r);
    assert Balanced(u.l.l) && NoRedRed(u.l.l);
    assert Balanced(u.l) && NoRedRed(u.l) && BlackHeight(u.l) == BlackHeight(p.l);
  }

  lemma OuterNephewRightInv<N>(up: Ctx<N, Color>, p: Tree<N, Color>)
    requires ShortRight(up, p) && p.l.T? && p.l.c == BLACK && p.l.l.T? && p.l.l.c == RED
    ensures var u := OuterNephewRight(p);
      RedBlack(Plug(up, u)) && Elems(u) == Elems(p)
  {
    var d := Colored(T(Colored(ColorLeft(p.l, BLACK), p.c), p.n, p.c, p.r), BLACK);
    assert Elems(Colored(p.l.l, BLACK)) == Elems(p.l.l);
    assert Elems(d.l) == Elems(p.l);
    TurnRightElems(d);
    var u := OuterNephewRight(p);
    assert Balanced(p.l.l) && NoRedRed(p.l.l);
    assert Balanced(u.r) && NoRedRed(u.r) && BlackHeight(u.r) == BlackHeight(p.r) + 1;
    assert Balanced(u.l) && NoRedRed(u.l) && BlackHeight(u.l) == BlackHeight(p.r) + 1;
    PlugRedBlack(up, u);
  }

  lemma {:induction false} SizeBound<N>(t: Tree<N, Color>)
    requires Balanced(t)
    ensures Size(t) + 1 >= Pow2(BlackHeight(t))
  {
    if t.T? {
      SizeBound(t.l);
      SizeBound(t.r);
    }
  }

  lemma {:induction false} HeightBound<N>(t: Tree<N, Color>)
    requires Balanced(t) && NoRedRed(t)
    ensures Height(t) <= 2 * BlackHeight(t) + (1 - Weight(ColorOf(t)))
  {
    if t.T? {
      HeightBound(t.l);
      HeightBound(t.r);
    }
  }

  // The height is at most 2 lg(n + 1).
  lemma {:induction false} HeightLogarithmic<N>(t: Tree<N, Color>)
    requires RedBlack(t)
    ensures Pow2(Height(t)) <= (Size(t) + 1) * (Size(t) + 1)
  {
    var b := BlackHeight(t);
    HeightBound(t);
    SizeBound(t);
    Pow2Monotone(Height(t), b + b);
    Pow2Sum(b, b);
    SquareMonotone(Pow2(b), Size(t) + 1);
  }

  lemma SquareMonotone(a: nat, b: nat)
    requires a <= b
    ensures a * a <= b * b
  {
    assert a * a <= a * b <= b * b;
  }
}
