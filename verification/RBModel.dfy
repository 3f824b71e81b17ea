/**
  Red-black trees in memory: cells with child and parent pointers, the tree they represent, and the
  context above a node. Mirror-image branches of the code are written once, for a side.
 */
module RBModel {
  import opened Basics

  datatype Color = Red | Black

  /** RB_ENTRY: pointers are addresses, 0 is NULL. */
  datatype Cell = Cell(left: nat, right: nat, parent: nat, color: Color)

  type Mem = map<nat, Cell>

  function KidOf(c: Cell, s: Side): nat {
    if s.Left? then c.left else c.right
  }

  function WithKid(c: Cell, s: Side, a: nat): Cell {
    if s.Left? then c.(left := a) else c.(right := a)
  }

  datatype Tree = Nil | Node(left: Tree, at: nat, color: Color, right: Tree)

  function Root(t: Tree): nat {
    if t.Nil? then 0 else t.at
  }

  predicate IsRed(t: Tree) {
    t.Node? && t.color.Red?
  }

  /** The node with `near` on side `s` and `far` on the other. */
  function Make(s: Side, near: Tree, at: nat, color: Color, far: Tree): (t: Tree)
    ensures t.Node? && t.at == at && t.color == color && Kid(t, s) == near && Kid(t, Other(s)) == far
  {
    if s.Left? then Node(near, at, color, far) else Node(far, at, color, near)
  }

  function Kid(t: Tree, s: Side): Tree
    requires t.Node?
  {
    if s.Left? then t.left else t.right
  }

  lemma MakeKids(s: Side, t: Tree)
    requires t.Node?
    ensures t == Make(s, Kid(t, s), t.at, t.color, Kid(t, Other(s)))
  {
  }

  lemma MakeOther(s: Side, x: Tree, at: nat, color: Color, y: Tree)
    ensures Make(Other(s), x, at, color, y) == Make(s, y, at, color, x)
  {
  }

  /** The nodes in order. */
  function InOrder(t: Tree): seq<nat> {
    if t.Nil? then [] else InOrder(t.left) + [t.at] + InOrder(t.right)
  }

  ghost function Addrs(t: Tree): set<nat> {
    if t.Nil? then {} else Addrs(t.left) + {t.at} + Addrs(t.right)
  }

  ghost predicate Distinct(t: Tree) {
    t.Node? ==>
      && t.at !in Addrs(t.left) && t.at !in Addrs(t.right) && Addrs(t.left) !! Addrs(t.right)
      && Distinct(t.left) && Distinct(t.right)
  }

  lemma MakeStored(m: Mem, s: Side, x: Tree, at: nat, color: Color, y: Tree, parent: nat)
    ensures Stored(m, Make(s, x, at, color, y), parent) <==>
            && at != 0 && at in m && m[at] == CellFor(s, Root(x), Root(y), parent, color)
            && Stored(m, x, at) && Stored(m, y, at)
  {
  }

  /** Child and parent pointers and colours in memory are those of the tree. */
  ghost predicate Stored(m: Mem, t: Tree, parent: nat) {
    t.Node? ==>
      && t.at != 0 && t.at in m && m[t.at] == Cell(Root(t.left), Root(t.right), parent, t.color)
      && Stored(m, t.left, t.at) && Stored(m, t.right, t.at)
  }

  /** The representation of a tree whose root pointer is `root`. */
  ghost predicate Whole(m: Mem, root: nat, t: Tree) {
    Stored(m, t, 0) && Distinct(t) && root == Root(t)
  }

  // ------------------------------------------------------------------ contexts

  /** What lies above a subtree: it hangs on side `side` of node `at`. */
  datatype Ctx = Top | In(side: Side, up: Ctx, at: nat, color: Color, other: Tree)

  function Plug(c: Ctx, t: Tree): Tree {
    match c
    case Top => t
    case In(s, up, at, color, other) => Plug(up, Make(s, t, at, color, other))
  }

  function CtxAt(c: Ctx): nat {
    if c.Top? then 0 else c.at
  }

  ghost function CtxAddrs(c: Ctx): set<nat> {
    if c.Top? then {} else CtxAddrs(c.up) + {c.at} + Addrs(c.other)
  }

  ghost predicate CtxDistinct(c: Ctx) {
    c.In? ==>
      && c.at !in Addrs(c.other) && c.at !in CtxAddrs(c.up) && Addrs(c.other) !! CtxAddrs(c.up)
      && Distinct(c.other) && CtxDistinct(c.up)
  }

  function CellFor(s: Side, hole: nat, other: nat, parent: nat, color: Color): Cell {
    if s.Left? then Cell(hole, other, parent, color) else Cell(other, hole, parent, color)
  }

  ghost predicate CtxStored(m: Mem, c: Ctx, hole: nat) {
    c.In? ==>
      && c.at != 0 && c.at in m && m[c.at] == CellFor(c.side, hole, Root(c.other), CtxAt(c.up), c.color)
      && Stored(m, c.other, c.at) && CtxStored(m, c.up, c.at)
  }

  function CtxRoot(c: Ctx, hole: nat): nat {
    if c.Top? then hole else CtxRoot(c.up, c.at)
  }

  function LeftOf(c: Ctx): seq<nat> {
    match c
    case Top => []
    case In(s, up, at, _, other) => if s.Left? then LeftOf(up) else LeftOf(up) + (InOrder(other) + [at])
  }

  function RightOf(c: Ctx): seq<nat> {
    match c
    case Top => []
    case In(s, up, at, _, other) => if s.Left? then ([at] + InOrder(other)) + RightOf(up) else RightOf(up)
  }

  lemma {:induction false} InOrderPlug(c: Ctx, t: Tree)
    ensures InOrder(Plug(c, t)) == LeftOf(c) + InOrder(t) + RightOf(c)
  {
    if c.In? {
      InOrderPlug(c.up, Make(c.side, t, c.at, c.color, c.other));
    }
  }

  lemma {:induction false} AddrsPlug(c: Ctx, t: Tree)
    ensures Addrs(Plug(c, t)) == CtxAddrs(c) + Addrs(t)
    ensures Root(Plug(c, t)) == CtxRoot(c, Root(t))
  {
    if c.In? { AddrsPlug(c.up, Make(c.side, t, c.at, c.color, c.other)); }
  }

  /** The parts of a represented tree, seen from a node. */
  ghost predicate Parts(m: Mem, root: nat, c: Ctx, t: Tree) {
    && CtxStored(m, c, Root(t)) && Stored(m, t, CtxAt(c))
    && CtxDistinct(c) && Distinct(t) && Addrs(t) !! CtxAddrs(c)
    && root == CtxRoot(c, Root(t))
  }

  lemma {:induction false} PlugStored(m: Mem, c: Ctx, t: Tree)
    ensures Stored(m, Plug(c, t), 0) <==> CtxStored(m, c, Root(t)) && Stored(m, t, CtxAt(c))
  {
    if c.In? { PlugStored(m, c.up, Make(c.side, t, c.at, c.color, c.other)); }
  }

  lemma {:induction false} PlugDistinct(c: Ctx, t: Tree)
    ensures Distinct(Plug(c, t)) <==> CtxDistinct(c) && Distinct(t) && Addrs(t) !! CtxAddrs(c)
  {
    if c.In? { PlugDistinct(c.up, Make(c.side, t, c.at, c.color, c.other)); }
  }

  lemma PartsAreWhole(m: Mem, root: nat, c: Ctx, t: Tree)
    ensures Whole(m, root, Plug(c, t)) <==> Parts(m, root, c, t)
  {
    PlugStored(m, c, t);
    PlugDistinct(c, t);
    AddrsPlug(c, t);
  }

  /** Moving down to a child. */
  lemma Down(s: Side, c: Ctx, t: Tree)
    requires t.Node?
    ensures Plug(In(s, c, t.at, t.color, Kid(t, Other(s))), Kid(t, s)) == Plug(c, t)
  {
  }

  // ------------------------------------------------------------------ framing

  ghost predicate SameOn(m: Mem, m': Mem, s: set<nat>) {
    forall a | a in s && a in m :: a in m' && m'[a] == m[a]
  }

  lemma {:induction false} StoredFrame(m: Mem, m': Mem, t: Tree, parent: nat)
    requires Stored(m, t, parent) && SameOn(m, m', Addrs(t))
    ensures Stored(m', t, parent)
  {
    if t.Node? {
      assert t.at in Addrs(t);
      StoredFrame(m, m', t.left, t.at);
      StoredFrame(m, m', t.right, t.at);
    }
  }

  /** Only the parent pointer of the root changed. */
  lemma StoredReparent(m: Mem, m': Mem, t: Tree, parent: nat, parent': nat)
    requires Stored(m, t, parent) && Distinct(t) && (t.Node? ==> SameOn(m, m', Addrs(t) - {t.at}))
    requires t.Node? ==> t.at in m' && m'[t.at] == m[t.at].(parent := parent')
    ensures Stored(m', t, parent')
  {
  }

  lemma {:induction false} CtxFrame(m: Mem, m': Mem, c: Ctx, hole: nat)
    requires CtxStored(m, c, hole) && SameOn(m, m', CtxAddrs(c))
    ensures CtxStored(m', c, hole)
  {
    if c.In? {
      StoredFrame(m, m', c.other, c.at);
      CtxFrame(m, m', c.up, c.at);
    }
  }

  /** Only the pointer to the hole changed. */
  lemma CtxRehole(m: Mem, m': Mem, c: Ctx, hole: nat, hole': nat)
    requires CtxStored(m, c, hole) && CtxDistinct(c) && (c.In? ==> SameOn(m, m', CtxAddrs(c) - {c.at}))
    requires c.In? ==> c.at in m' && m'[c.at] == WithKid(m[c.at], c.side, hole')
    ensures CtxStored(m', c, hole')
  {
    if c.In? {
      StoredFrame(m, m', c.other, c.at);
      CtxFrame(m, m', c.up, c.at);
    }
  }

  /** Replacing a subtree: its own cells, and the one pointer to it. */
  lemma Replaced(m: Mem, m': Mem, root: nat, root': nat, c: Ctx, t: Tree, t': Tree)
    requires Whole(m, root, Plug(c, t))
    requires Stored(m', t', CtxAt(c)) && Distinct(t') && Addrs(t') !! CtxAddrs(c)
    requires (c.In? ==> SameOn(m, m', CtxAddrs(c) - {c.at}))
    requires c.In? ==> c.at in m && c.at in m' && m'[c.at] == WithKid(m[c.at], c.side, Root(t'))
    requires root' == if c.Top? then Root(t') else root
    ensures Whole(m', root', Plug(c, t'))
  {
    PartsAreWhole(m, root, c, t);
    PartsAreWhole(m', root', c, t');
    CtxRehole(m, m', c, Root(t), Root(t'));
    if c.In? { assert CtxRoot(c, Root(t)) == CtxRoot(c, Root(t')); }
  }

  /** Where a node of the tree is. */
  ghost function Locate(c: Ctx, t: Tree, a: nat): (r: (Ctx, Tree))
    requires a in Addrs(t)
    ensures Plug(r.0, r.1) == Plug(c, t) && r.1.Node? && r.1.at == a
    decreases t
  {
    if t.at == a then (c, t)
    else if a in Addrs(t.left) then Locate(In(Left, c, t.at, t.color, t.right), t.left, a)
    else Locate(In(Right, c, t.at, t.color, t.left), t.right, a)
  }

  // ------------------------------------------------------------------ colours

  /** Black nodes on the leftmost path. */
  function BH(t: Tree): nat {
    if t.Nil? then 0 else BH(t.left) + if t.color.Black? then 1 else 0
  }

  /** No red node has a red child, and all paths have as many black nodes. */
  predicate Bal(t: Tree) {
    t.Node? ==>
      && Bal(t.left) && Bal(t.right) && BH(t.left) == BH(t.right)
      && (t.color.Red? ==> !IsRed(t.left) && !IsRed(t.right))
  }

  /** The context is sound around a subtree of black height `h` whose root is red or not. */
  predicate BalIn(c: Ctx, h: nat, red: bool) {
    c.In? ==>
      && Bal(c.other) && BH(c.other) == h
      && (c.color.Red? ==> !red && !IsRed(c.other))
      && BalIn(c.up, h + (if c.color.Black? then 1 else 0), c.color.Red?)
  }

  lemma {:induction false} BalPlug(c: Ctx, t: Tree)
    ensures Bal(Plug(c, t)) <==> Bal(t) && BalIn(c, BH(t), IsRed(t))
  {
    if c.In? {
      BalPlug(c.up, Make(c.side, t, c.at, c.color, c.other));
    }
  }

  lemma BalMake(s: Side, x: Tree, at: nat, color: Color, y: Tree)
    ensures Bal(Make(s, x, at, color, y)) <==>
            Bal(x) && Bal(y) && BH(x) == BH(y) && (color.Red? ==> !IsRed(x) && !IsRed(y))
    ensures BH(x) == BH(y) ==> BH(Make(s, x, at, color, y)) == BH(x) + if color.Black? then 1 else 0
    ensures IsRed(Make(s, x, at, color, y)) <==> color.Red?
  {
  }

  /** The outermost node is black. */
  predicate RootBlack(c: Ctx) {
    c.In? ==> if c.up.Top? then c.color.Black? else RootBlack(c.up)
  }

  lemma {:induction false} RootOfPlug(c: Ctx, t: Tree)
    requires c.In?
    ensures IsRed(Plug(c, t)) <==> !RootBlack(c)
  {
    if c.up.In? { RootOfPlug(c.up, Make(c.side, t, c.at, c.color, c.other)); }
  }

  function Blacken(t: Tree): Tree {
    if t.Nil? then t else t.(color := Black)
  }

  // ------------------------------------------------------------------ height

  function Height(t: Tree): nat {
    if t.Nil? then 0 else 1 + if Height(t.left) > Height(t.right) then Height(t.left) else Height(t.right)
  }

  lemma {:induction false} HeightByBlack(t: Tree)
    requires Bal(t)
    ensures Height(t) <= 2 * BH(t) + if IsRed(t) then 1 else 0
    ensures Pow2(BH(t)) <= |InOrder(t)| + 1
  {
    if t.Node? {
      HeightByBlack(t.left);
      HeightByBlack(t.right);
    }
  }

  lemma {:induction false} Pow2Double(n: nat)
    ensures Pow2(2 * n) == Pow2(n) * Pow2(n)
  {
    if n > 0 {
      Pow2Double(n - 1);
      assert Pow2(2 * n) == 2 * (2 * Pow2(2 * (n - 1)));
    }
  }

  lemma SquareMonotone(a: nat, b: nat)
    requires a <= b
    ensures a * a <= b * b
  {
  }

  /** With n elements the height is at most twice the base-two logarithm of n + 1. */
  lemma HeightBound(t: Tree)
    requires Bal(t) && !IsRed(t)
    ensures var n := |InOrder(t)|; Pow2(Height(t)) <= (n + 1) * (n + 1)
  {
    HeightByBlack(t);
    Pow2Monotone(Height(t), 2 * BH(t));
    Pow2Double(BH(t));
    SquareMonotone(Pow2(BH(t)), |InOrder(t)| + 1);
  }

  // ------------------------------------------------------------------ the cases of insertion

  function Depth(c: Ctx): nat {
    if c.Top? then 0 else 1 + Depth(c.up)
  }

  /** A red node whose parent may be red too is all that is wrong. */
  predicate RedAt(c: Ctx, t: Tree) {
    && t.Node? && t.color.Red? && Bal(t) && BalIn(c, BH(t), false) && RootBlack(c)
  }

  lemma RedParent(c: Ctx, t: Tree)
    requires RedAt(c, t) && c.In? && c.color.Red?
    ensures c.up.In? && c.up.color.Black? && BH(c.other) == BH(t) == BH(c.up.other)
    ensures Bal(c.other) && !IsRed(c.other) && Bal(c.up.other)
    ensures BalIn(c.up.up, BH(t) + 1, false) && RootBlack(c.up.up)
  {
    assert c.up.In?;
    assert BalIn(c.up, BH(t), true);
    assert BalIn(c.up.up, BH(t) + 1, false);
    assert RootBlack(c.up);
  }

  /** The uncle is red: the grandparent becomes the red node. */
  lemma UncleRed(c: Ctx, t: Tree)
    requires RedAt(c, t) && c.In? && c.color.Red? && c.up.In? && IsRed(c.up.other)
    ensures var g := c.up;
            RedAt(g.up, Make(g.side, Make(c.side, t, c.at, Black, c.other), g.at, Red, Blacken(g.other)))
  {
    RedParent(c, t);
    var g := c.up;
    var x, u := Make(c.side, t, c.at, Black, c.other), Blacken(g.other);
    BalMake(c.side, t, c.at, Black, c.other);
    assert Bal(u) && BH(u) == BH(g.other) + 1;
    BalMake(g.side, x, g.at, Red, u);
  }

  /** The node is an inner child: after a rotation it is the parent, of an outer child. */
  lemma InnerChild(c: Ctx, t: Tree)
    requires RedAt(c, t) && c.In? && c.color.Red? && c.up.In? && c.side == Other(c.up.side)
    ensures var s := c.up.side;
            && RedAt(In(s, c.up, t.at, Red, Kid(t, Other(s))), Make(s, c.other, c.at, Red, Kid(t, s)))
  {
  }

  /** The node is an outer child and the uncle is black: one rotation ends the repair. */
  lemma OuterChild(c: Ctx, t: Tree)
    requires RedAt(c, t) && c.In? && c.color.Red? && c.up.In? && c.side == c.up.side && !IsRed(c.up.other)
    ensures var g := c.up;
            RedAt(In(g.side, g.up, c.at, Black, Make(g.side, c.other, g.at, Red, g.other)), t)
  {
    RedParent(c, t);
    var g := c.up;
    BalMake(g.side, c.other, g.at, Red, g.other);
  }

  lemma RedAtBlackParent(c: Ctx, t: Tree)
    requires RedAt(c, t) && (c.Top? || c.color.Black?)
    ensures Bal(Blacken(Plug(c, t))) && (c.In? ==> !IsRed(Plug(c, t)))
  {
    BalPlug(c, t);
    if c.In? { RootOfPlug(c, t); }
  }

  // ------------------------------------------------------------------ the cases of removal

  /** Paths through `x` lack one black node, which blackening a red `x` would give back. */
  predicate Deficit(c: Ctx, x: Tree) {
    Bal(Blacken(x)) && BalIn(c, BH(x) + 1, false) && RootBlack(c)
  }

  lemma DeficitSibling(c: Ctx, x: Tree)
    requires Deficit(c, x) && c.In?
    ensures c.other.Node? && Bal(c.other) && BH(c.other) == BH(x) + 1
    ensures BalIn(c.up, BH(x) + 1 + (if c.color.Black? then 1 else 0), false)
    ensures c.up.In? ==> RootBlack(c.up)
  {
    hide Bal;
    BalInBlack(c.up, BH(x) + 1 + (if c.color.Black? then 1 else 0), c.color.Red?);
    SomeBlack(c.other);
  }

  lemma BalInBlack(c: Ctx, h: nat, red: bool)
    ensures BalIn(c, h, red) ==> BalIn(c, h, false)
  {
  }

  lemma SomeBlack(t: Tree)
    ensures BH(t) > 0 ==> t.Node?
  {
  }

  /** A red sibling is rotated up: the new sibling is black. */
  lemma RedSibling(c: Ctx, x: Tree)
    requires Deficit(c, x) && c.In? && IsRed(c.other)
    ensures c.color.Black?
    ensures var s, sib := c.side, c.other;
            var c' := In(s, In(s, c.up, sib.at, Black, Kid(sib, Other(s))), c.at, Red, Kid(sib, s));
            Deficit(c', x) && c'.other.Node? && !IsRed(c'.other)
  {
  }

  /** A black sibling with black children: it becomes red, and the deficit moves up. */
  lemma BlackNephews(c: Ctx, x: Tree)
    requires Deficit(c, x) && c.In? && !IsRed(x) && !IsRed(c.other)
    requires c.other.Node? && !IsRed(c.other.left) && !IsRed(c.other.right)
    ensures Deficit(c.up, Make(c.side, x, c.at, c.color, c.other.(color := Red)))
  {
    DeficitSibling(c, x);
    var sib := c.other.(color := Red);
    var x' := Make(c.side, x, c.at, c.color, sib);
    assert Bal(sib) && BH(sib) == BH(x);
    RecoloredMake(c.side, x, c.at, c.color, Black, sib);
    BalMake(c.side, x, c.at, c.color, sib);
    BalMake(c.side, x, c.at, Black, sib);
  }

  lemma RecoloredMake(s: Side, x: Tree, at: nat, color: Color, color': Color, y: Tree)
    ensures var t := Make(s, x, at, color, y); t.Node? && t.(color := color') == Make(s, x, at, color', y)
  {
  }

  /** A black sibling whose red child is the near one: after a rotation the far one is red. */
  lemma NearNephew(c: Ctx, x: Tree)
    requires Deficit(c, x) && c.In? && c.other.Node? && !IsRed(c.other)
    requires IsRed(Kid(c.other, c.side)) && !IsRed(Kid(c.other, Other(c.side)))
    ensures var s, sib := c.side, c.other;
            var near, far := Kid(sib, s), Kid(sib, Other(s));
            var sib' := Make(s, Kid(near, s), near.at, Black, Make(s, Kid(near, Other(s)), sib.at, Red, far));
            Deficit(In(s, c.up, c.at, c.color, sib'), x)
  {
    DeficitSibling(c, x);
    var s, sib := c.side, c.other;
    var near, far := Kid(sib, s), Kid(sib, Other(s));
    MakeKids(s, sib);
    MakeKids(s, near);
    BalMake(s, near, sib.at, Black, far);
    BalMake(s, Kid(near, s), near.at, Red, Kid(near, Other(s)));
    BalMake(s, Kid(near, Other(s)), sib.at, Red, far);
    BalMake(s, Kid(near, s), near.at, Black, Make(s, Kid(near, Other(s)), sib.at, Red, far));
  }

  /** A black sibling whose far child is red: one rotation ends the repair. */
  lemma FarNephew(c: Ctx, x: Tree)
    requires Deficit(c, x) && c.In? && !IsRed(x) && c.other.Node? && !IsRed(c.other)
    requires IsRed(Kid(c.other, Other(c.side)))
    ensures var s, sib := c.side, c.other;
            var t := Make(s, Make(s, x, c.at, Black, Kid(sib, s)), sib.at, c.color, Blacken(Kid(sib, Other(s))));
            Bal(Plug(c.up, t)) && !IsRed(Plug(c.up, t))
  {
    DeficitSibling(c, x);
    var s, sib := c.side, c.other;
    var near, far := Kid(sib, s), Kid(sib, Other(s));
    MakeKids(s, sib);
    BalMake(s, near, sib.at, Black, far);
    assert Bal(Blacken(far)) && BH(Blacken(far)) == BH(far) + 1;
    BalMake(s, x, c.at, Black, near);
    var t := Make(s, Make(s, x, c.at, Black, near), sib.at, c.color, Blacken(far));
    BalMake(s, Make(s, x, c.at, Black, near), sib.at, c.color, Blacken(far));
    BalPlug(c.up, t);
    if c.up.In? { RootOfPlug(c.up, t); }
  }

  /** A red node, or the root, takes the missing black. */
  lemma DeficitEnds(c: Ctx, x: Tree)
    requires Deficit(c, x) && (c.Top? || IsRed(x))
    ensures Bal(Plug(c, Blacken(x))) && !IsRed(Plug(c, Blacken(x)))
  {
    BalPlug(c, Blacken(x));
    if c.In? { RootOfPlug(c, Blacken(x)); }
  }

  // ------------------------------------------------------------------ the successor

  /** The context of the leftmost node below. */
  function MinCtx(base: Ctx, r: Tree): Ctx
    requires r.Node?
    decreases r
  {
    if r.left.Nil? then base else MinCtx(In(Left, base, r.at, r.color, r.right), r.left)
  }

  function MinNode(r: Tree): (n: Tree)
    requires r.Node?
    ensures n.Node? && n.left.Nil?
  {
    if r.left.Nil? then r else MinNode(r.left)
  }

  /** The tree with the leftmost node replaced. */
  function MinReplaced(r: Tree, y: Tree): Tree
    requires r.Node?
  {
    if r.left.Nil? then y else Node(MinReplaced(r.left, y), r.at, r.color, r.right)
  }

  lemma {:induction false} MinPlug(base: Ctx, r: Tree, y: Tree)
    requires r.Node?
    ensures Plug(MinCtx(base, r), y) == Plug(base, MinReplaced(r, y))
    ensures MinReplaced(r, MinNode(r)) == r
    ensures InOrder(r) == [MinNode(r).at] + InOrder(MinReplaced(r, MinNode(r).right))
    ensures MinNode(r).at in Addrs(r)
    decreases r
  {
    if r.left.Node? {
      MinPlug(In(Left, base, r.at, r.color, r.right), r.left, y);
    }
  }

  /** Which node the leftmost one hangs on does not depend on what is above, unless it is the topmost. */
  lemma {:induction false} MinCtxAt(base: Ctx, base': Ctx, r: Tree)
    requires r.Node?
    ensures r.left.Nil? ==> MinCtx(base, r) == base && MinCtx(base', r) == base'
    ensures r.left.Node? ==> CtxAt(MinCtx(base, r)) == CtxAt(MinCtx(base', r)) && CtxAt(MinCtx(base, r)) in Addrs(r)
    decreases r
  {
    if r.left.Node? {
      MinCtxAt(In(Left, base, r.at, r.color, r.right), In(Left, base', r.at, r.color, r.right), r.left);
    }
  }

  /** The balance of a context does not depend on which element sits where. */
  lemma MinCtxBal(c: Ctx, t: Tree, elm: nat)
    requires t.Node? && t.right.Node? && Bal(Plug(c, t))
    ensures var n := MinNode(t.right);
            Bal(n) && BalIn(MinCtx(In(Right, c, elm, t.color, t.left), t.right), BH(n), IsRed(n))
  {
    var n := MinNode(t.right);
    var base := In(Right, c, elm, t.color, t.left);
    MinPlug(base, t.right, n);
    BalPlug(c, t);
    var t' := Node(t.left, elm, t.color, t.right);
    BalPlug(c, t');
    BalPlug(MinCtx(base, t.right), n);
  }

  lemma {:induction false} MinCtxRoot(base: Ctx, r: Tree)
    requires r.Node? && base.In?
    ensures MinCtx(base, r).In? && (RootBlack(MinCtx(base, r)) <==> RootBlack(base))
    decreases r
  {
    if r.left.Node? { MinCtxRoot(In(Left, base, r.at, r.color, r.right), r.left); }
  }

  /** Removing a node with at most one child. */
  lemma SpliceBal(c: Ctx, t: Tree, x: Tree)
    requires Bal(Plug(c, t)) && !IsRed(Plug(c, t)) && t.Node?
    requires (t.left.Nil? && x == t.right) || (t.right.Nil? && x == t.left)
    ensures t.color.Black? ==> Deficit(c, x)
    ensures t.color.Red? ==> Bal(Plug(c, x)) && !IsRed(Plug(c, x))
  {
    hide Bal, BalIn, BH, RootBlack, Plug, IsRed;
    BalPlug(c, t);
    OneChild(t, x);
    BalInBlack(c, BH(t), IsRed(t));
    BalInTop(c, BH(x), IsRed(x));
    BalPlug(c, x);
    SpliceRoot(c, t, x);
  }

  lemma SpliceRoot(c: Ctx, t: Tree, x: Tree)
    requires !IsRed(Plug(c, t)) && t.Node?
    ensures RootBlack(c) && (IsRed(t) <==> t.color.Red?) && (t.color.Red? ==> c.In? && !IsRed(Plug(c, x)))
  {
    if c.In? { RootOfPlug(c, t); RootOfPlug(c, x); }
  }

  lemma OneChild(t: Tree, x: Tree)
    requires Bal(t) && t.Node?
    requires (t.left.Nil? && x == t.right) || (t.right.Nil? && x == t.left)
    ensures Bal(x) && Bal(Blacken(x)) && BH(t) == BH(x) + (if t.color.Black? then 1 else 0)
    ensures t.color.Red? ==> !IsRed(x)
  {
  }

  lemma BalInTop(c: Ctx, h: nat, red: bool)
    ensures c.Top? ==> BalIn(c, h, red)
  {
  }

  /** Removing the successor from below, whose place the removed node's colour keeps. */
  lemma SuccessorBal(c: Ctx, t: Tree, elm: nat)
    requires Bal(Plug(c, t)) && !IsRed(Plug(c, t)) && t.Node? && t.right.Node?
    ensures var n := MinNode(t.right);
            var c' := MinCtx(In(Right, c, elm, t.color, t.left), t.right);
            && (n.color.Black? ==> Deficit(c', n.right))
            && (n.color.Red? ==> Bal(Plug(c', n.right)) && !IsRed(Plug(c', n.right)))
  {
    var n := MinNode(t.right);
    var base := In(Right, c, elm, t.color, t.left);
    var c' := MinCtx(base, t.right);
    MinCtxBal(c, t, elm);
    MinCtxRoot(base, t.right);
    if c.In? { RootOfPlug(c, t); }
    BalPlug(c', n);
    RootOfPlug(c', n);
    SpliceBal(c', n, n.right);
  }

  lemma {:induction false} OrderIsAddrs(t: Tree)
    ensures forall a :: a in InOrder(t) <==> a in Addrs(t)
  {
    if t.Node? {
      OrderIsAddrs(t.left);
      OrderIsAddrs(t.right);
    }
  }

  lemma {:induction false} SidesAreAddrs(c: Ctx)
    ensures forall a | a in LeftOf(c) || a in RightOf(c) :: a in CtxAddrs(c)
  {
    if c.In? {
      SidesAreAddrs(c.up);
      OrderIsAddrs(c.other);
    }
  }

  /** What lies before a node does not contain it. */
  lemma NotBefore(c: Ctx, t: Tree)
    requires Distinct(Plug(c, t)) && t.Node?
    ensures t.at !in LeftOf(c) + InOrder(t.left)
    ensures InOrder(Plug(c, t)) == (LeftOf(c) + InOrder(t.left)) + [t.at] + (InOrder(t.right) + RightOf(c))
  {
    NodeApart(c, t);
    hide Distinct, Addrs, CtxAddrs;
    SidesAreAddrs(c);
    OrderIsAddrs(t.left);
    InOrderPlug(c, t);
    Regroup(LeftOf(c), InOrder(t.left), t.at, InOrder(t.right), RightOf(c));
  }

  lemma NodeApart(c: Ctx, t: Tree)
    requires Distinct(Plug(c, t)) && t.Node?
    ensures t.at !in CtxAddrs(c) && t.at !in Addrs(t.left)
  {
    PlugDistinct(c, t);
    assert t.at in Addrs(t);
  }

  lemma Regroup(a: seq<nat>, b: seq<nat>, x: nat, c: seq<nat>, d: seq<nat>)
    ensures a + (b + [x] + c) + d == (a + b) + [x] + (c + d)
  {
  }

  // ------------------------------------------------------------------ search order

  /** The new element belongs below this context. */
  ghost predicate Between(c: Ctx, elm: nat, cmp: (nat, nat) -> int) {
    (forall a | a in LeftOf(c) :: cmp(a, elm) < 0) && (forall a | a in RightOf(c) :: cmp(elm, a) < 0)
  }

  /** In search order, what is before an element is smaller and what is after it greater. */
  lemma SortedAround(x: seq<nat>, y: seq<nat>, e: nat, z: seq<nat>, w: seq<nat>, cmp: (nat, nat) -> int)
    requires SortedBy(x + (y + [e] + z) + w, cmp)
    ensures forall a | a in y :: cmp(a, e) < 0
    ensures forall a | a in z :: cmp(e, a) < 0
  {
    var s := x + (y + [e] + z) + w;
    var k := |x| + |y|;
    assert s[k] == e;
    forall i | 0 <= i < |y| ensures cmp(y[i], e) < 0 { assert s[|x| + i] == y[i]; }
    forall i | 0 <= i < |z| ensures cmp(e, z[i]) < 0 { assert s[k + 1 + i] == z[i]; }
  }

  lemma DescendLeft(c: Ctx, t: Tree, elm: nat, cmp: (nat, nat) -> int)
    requires Total(cmp) && SortedBy(InOrder(Plug(c, t)), cmp) && Between(c, elm, cmp) && t.Node? && cmp(elm, t.at) < 0
    ensures Between(In(Left, c, t.at, t.color, t.right), elm, cmp)
  {
    hide Plug, SortedBy;
    InOrderPlug(c, t);
    SortedAround(LeftOf(c), InOrder(t.left), t.at, InOrder(t.right), RightOf(c), cmp);
  }

  lemma DescendRight(c: Ctx, t: Tree, elm: nat, cmp: (nat, nat) -> int)
    requires Total(cmp) && SortedBy(InOrder(Plug(c, t)), cmp) && Between(c, elm, cmp) && t.Node? && cmp(elm, t.at) > 0
    ensures Between(In(Right, c, t.at, t.color, t.left), elm, cmp)
  {
    hide Plug, SortedBy;
    InOrderPlug(c, t);
    SortedAround(LeftOf(c), InOrder(t.left), t.at, InOrder(t.right), RightOf(c), cmp);
    assert cmp(t.at, elm) < 0;
  }
}
