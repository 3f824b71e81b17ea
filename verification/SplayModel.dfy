/** Splay trees in memory, and the two partial trees that top-down splaying builds under a dummy node. */
module SplayModel {
  import opened Basics

  /** SPLAY_ENTRY. */
  datatype Cell = Cell(left: nat, right: nat)

  type Mem = map<nat, Cell>

  function KidOf(c: Cell, s: Side): nat {
    if s.Left? then c.left else c.right
  }

  function WithKid(c: Cell, s: Side, a: nat): Cell {
    if s.Left? then c.(left := a) else c.(right := a)
  }

  datatype Tree = Nil | Node(left: Tree, at: nat, right: Tree)

  function Root(t: Tree): nat {
    if t.Nil? then 0 else t.at
  }

  function Kid(t: Tree, s: Side): Tree
    requires t.Node?
  {
    if s.Left? then t.left else t.right
  }

  /** The node with `near` on side `s` and `far` on the other. */
  function Make(s: Side, near: Tree, at: nat, far: Tree): (t: Tree)
    ensures t.Node? && t.at == at && Kid(t, s) == near && Kid(t, Other(s)) == far
  {
    if s.Left? then Node(near, at, far) else Node(far, at, near)
  }

  function InOrder(t: Tree): seq<nat> {
    if t.Nil? then [] else InOrder(t.left) + [t.at] + InOrder(t.right)
  }

  ghost function Addrs(t: Tree): set<nat> {
    if t.Nil? then {} else Addrs(t.left) + {t.at} + Addrs(t.right)
  }

  ghost predicate Distinct(t: Tree) {
    t.Node? ==>
      && t.at !in Addrs(t.left) && t.at !in Addrs(t.right) && Addrs(t.left) !! Addrs(t.right)
      && Distinct(t.left) && Distinct(t.right)
  }

  /** The pointers in memory are those of the tree. */
  ghost predicate Stored(m: Mem, t: Tree) {
    t.Node? ==>
      && t.at != 0 && t.at in m && m[t.at] == Cell(Root(t.left), Root(t.right))
      && Stored(m, t.left) && Stored(m, t.right)
  }

  lemma MakeParts(m: Mem, s: Side, x: Tree, at: nat, y: Tree)
    ensures var t := Make(s, x, at, y);
            && Addrs(t) == Addrs(x) + {at} + Addrs(y)
            && (Distinct(t) <==>
                  && at !in Addrs(x) && at !in Addrs(y) && Addrs(x) !! Addrs(y)
                  && Distinct(x) && Distinct(y))
            && (Stored(m, t) <==> at != 0 && at in m && KidOf(m[at], s) == Root(x) && KidOf(m[at], Other(s)) == Root(y)
                                  && Stored(m, x) && Stored(m, y))
  {
  }

  lemma KidParts(m: Mem, s: Side, t: Tree)
    requires t.Node?
    ensures t == Make(s, Kid(t, s), t.at, Kid(t, Other(s)))
    ensures Addrs(t) == Addrs(Kid(t, s)) + {t.at} + Addrs(Kid(t, Other(s)))
    ensures Distinct(t) <==> t.at !in Addrs(Kid(t, s)) && t.at !in Addrs(Kid(t, Other(s)))
                             && Addrs(Kid(t, s)) !! Addrs(Kid(t, Other(s)))
                             && Distinct(Kid(t, s)) && Distinct(Kid(t, Other(s)))
    ensures Stored(m, t) <==> t.at != 0 && t.at in m && KidOf(m[t.at], s) == Root(Kid(t, s))
                              && KidOf(m[t.at], Other(s)) == Root(Kid(t, Other(s)))
                              && Stored(m, Kid(t, s)) && Stored(m, Kid(t, Other(s)))
  {
  }

  ghost predicate SameOn(m: Mem, m': Mem, s: set<nat>) {
    forall a | a in s && a in m :: a in m' && m'[a] == m[a]
  }

  lemma {:induction false} StoredFrame(m: Mem, m': Mem, t: Tree)
    requires Stored(m, t) && SameOn(m, m', Addrs(t))
    ensures Stored(m', t)
  {
    if t.Node? {
      assert t.at in Addrs(t);
      StoredFrame(m, m', t.left);
      StoredFrame(m, m', t.right);
    }
  }

  // ------------------------------------------------------------------ the partial trees

  /**
    A partial tree whose last node has a hole on side `s`: from the dummy node's pointer on that side,
    node by node, each with a complete tree on its other side.
   */
  datatype Spine = End | Link(up: Spine, at: nat, sub: Tree)

  /** The node that has the hole: the dummy itself when the partial tree is empty. */
  function Bottom(node: nat, c: Spine): nat {
    if c.End? then node else c.at
  }

  ghost function SpineAddrs(c: Spine): set<nat> {
    if c.End? then {} else SpineAddrs(c.up) + {c.at} + Addrs(c.sub)
  }

  ghost predicate SpineDistinct(c: Spine) {
    c.Link? ==>
      && c.at !in SpineAddrs(c.up) && c.at !in Addrs(c.sub) && Addrs(c.sub) !! SpineAddrs(c.up)
      && SpineDistinct(c.up) && Distinct(c.sub)
  }

  /** Nothing is said of the pointer in the hole. */
  ghost predicate SpineStored(m: Mem, s: Side, node: nat, c: Spine) {
    if c.End? then node in m
    else
      && c.at != 0 && c.at in m && KidOf(m[c.at], Other(s)) == Root(c.sub) && Stored(m, c.sub)
      && SpineStored(m, s, node, c.up) && Bottom(node, c.up) in m && KidOf(m[Bottom(node, c.up)], s) == c.at
  }

  /** The tree that a tree in the hole completes. */
  function Fill(s: Side, c: Spine, x: Tree): Tree {
    if c.End? then x else Fill(s, c.up, Make(s, x, c.at, c.sub))
  }

  /** The nodes of a partial tree in order. */
  function OrderOf(s: Side, c: Spine): seq<nat> {
    if c.End? then []
    else if s.Right? then OrderOf(s, c.up) + (InOrder(c.sub) + [c.at])
    else ([c.at] + InOrder(c.sub)) + OrderOf(s, c.up)
  }

  lemma {:induction false} FillOrder(s: Side, c: Spine, x: Tree)
    ensures InOrder(Fill(s, c, x)) == if s.Right? then OrderOf(s, c) + InOrder(x) else InOrder(x) + OrderOf(s, c)
  {
    if c.Link? {
      FillOrder(s, c.up, Make(s, x, c.at, c.sub));
    }
  }

  lemma {:induction false} FillAddrs(s: Side, c: Spine, x: Tree)
    ensures Addrs(Fill(s, c, x)) == SpineAddrs(c) + Addrs(x)
    ensures Distinct(Fill(s, c, x)) <==> SpineDistinct(c) && Distinct(x) && SpineAddrs(c) !! Addrs(x)
  {
    if c.Link? {
      FillAddrs(s, c.up, Make(s, x, c.at, c.sub));
      MakeParts(map[], s, x, c.at, c.sub);
    }
  }

  /** Once the hole points at a stored tree, the dummy's pointer leads to the whole completed tree. */
  lemma {:induction false} FillStored(m: Mem, s: Side, node: nat, c: Spine, x: Tree)
    requires SpineStored(m, s, node, c) && Bottom(node, c) in m && KidOf(m[Bottom(node, c)], s) == Root(x)
    requires Stored(m, x)
    ensures Stored(m, Fill(s, c, x)) && node in m && KidOf(m[node], s) == Root(Fill(s, c, x))
  {
    if c.Link? {
      MakeParts(m, s, x, c.at, c.sub);
      FillStored(m, s, node, c.up, Make(s, x, c.at, c.sub));
    }
  }

  /** The nodes of the partial tree are as they were, but for the pointer in the hole. */
  lemma {:induction false} SpineFrame(m: Mem, m': Mem, s: Side, node: nat, c: Spine)
    requires SpineStored(m, s, node, c) && SpineDistinct(c) && node !in SpineAddrs(c)
    requires forall a | a in SpineAddrs(c) && a in m && a != Bottom(node, c) :: a in m' && m'[a] == m[a]
    requires node in m && node in m' && (c.Link? ==> KidOf(m'[node], s) == KidOf(m[node], s))
    requires c.Link? ==> c.at in m' && KidOf(m'[c.at], Other(s)) == KidOf(m[c.at], Other(s))
    ensures SpineStored(m', s, node, c)
  {
    if c.Link? {
      StoredFrame(m, m', c.sub);
      if c.up.Link? { assert c.up.at in SpineAddrs(c.up); }
      SpineFrame(m, m', s, node, c.up);
    }
  }

  lemma {:induction false} SpineIn(m: Mem, s: Side, node: nat, c: Spine)
    requires SpineStored(m, s, node, c)
    ensures node in m && Bottom(node, c) in m && Bottom(node, c) in SpineAddrs(c) + {node}
    ensures c.Link? ==> c.at in SpineAddrs(c)
  {
    if c.Link? { SpineIn(m, s, node, c.up); }
  }

  // ------------------------------------------------------------------ the state of the loop

  /** The tree still to be searched, and the nodes known to be smaller and greater than the key. */
  ghost predicate Splaying(m: Mem, root: nat, node: nat, l: Spine, r: Spine, t: Tree) {
    && node != 0 && node !in SpineAddrs(l) + SpineAddrs(r) + Addrs(t)
    && SpineDistinct(l) && SpineDistinct(r) && Distinct(t)
    && SpineAddrs(l) !! SpineAddrs(r) && SpineAddrs(l) !! Addrs(t) && SpineAddrs(r) !! Addrs(t)
    && SpineStored(m, Right, node, l) && SpineStored(m, Left, node, r) && Stored(m, t) && root == Root(t)
  }

  ghost function Whole(l: Spine, r: Spine, t: Tree): seq<nat> {
    OrderOf(Right, l) + InOrder(t) + OrderOf(Left, r)
  }

  /** All cells that splaying may write. */
  ghost function Region(node: nat, l: Spine, r: Spine, t: Tree): set<nat> {
    SpineAddrs(l) + SpineAddrs(r) + Addrs(t) + {node}
  }

  ghost predicate OnlyIn(m: Mem, m': Mem, s: set<nat>) {
    forall a | a in m && a !in s :: a in m' && m'[a] == m[a]
  }

  /** A rotation that moves `t` down to side `s`. */
  function Rotated(s: Side, t: Tree): Tree
    requires t.Node? && Kid(t, Other(s)).Node?
  {
    var p := Kid(t, Other(s));
    Make(s, Make(s, Kid(t, s), t.at, Kid(p, s)), p.at, Kid(p, Other(s)))
  }

  lemma RotatedOrder(s: Side, t: Tree)
    requires t.Node? && Kid(t, Other(s)).Node?
    ensures InOrder(Rotated(s, t)) == InOrder(t)
  {
    assert s.Left? ==> InOrder(t.right) == InOrder(t.right.left) + [t.right.at] + InOrder(t.right.right);
    assert s.Right? ==> InOrder(t.left) == InOrder(t.left.left) + [t.left.at] + InOrder(t.left.right);
  }

  /** The two pointer writes of a rotation. */
  lemma RotateKeeps(m: Mem, m': Mem, root: nat, node: nat, l: Spine, r: Spine, s: Side, t: Tree)
    requires Splaying(m, root, node, l, r, t) && t.Node? && Kid(t, Other(s)).Node?
    requires var p := Kid(t, Other(s)).at;
             t.at in m && p in m && p != t.at &&
             m' == m[t.at := WithKid(m[t.at], Other(s), KidOf(m[p], s))][p := WithKid(m[p], s, t.at)]
    ensures Splaying(m', Kid(t, Other(s)).at, node, l, r, Rotated(s, t)) && Whole(l, r, Rotated(s, t)) == Whole(l, r, t)
    ensures Region(node, l, r, Rotated(s, t)) == Region(node, l, r, t) && OnlyIn(m, m', Region(node, l, r, t))
  {
    hide InOrder, Addrs, Distinct, Stored, SpineStored, SpineDistinct, SpineAddrs, OrderOf, Rotated;
    RotatedOrder(s, t);
    RotatedStored(m, m', s, t);
    SpineIn(m, Right, node, l);
    SpineIn(m, Left, node, r);
    SpineFrame(m, m', Right, node, l);
    SpineFrame(m, m', Left, node, r);
  }

  lemma RotatedStored(m: Mem, m': Mem, s: Side, t: Tree)
    requires Stored(m, t) && Distinct(t) && t.Node? && Kid(t, Other(s)).Node?
    requires var p := Kid(t, Other(s)).at;
             t.at in m && p in m && p != t.at &&
             m' == m[t.at := WithKid(m[t.at], Other(s), KidOf(m[p], s))][p := WithKid(m[p], s, t.at)]
    ensures Stored(m', Rotated(s, t)) && Distinct(Rotated(s, t)) && Addrs(Rotated(s, t)) == Addrs(t)
    ensures Root(Rotated(s, t)) == Kid(t, Other(s)).at && t.at in Addrs(t) && Kid(t, Other(s)).at in Addrs(t)
  {
    hide Addrs, Distinct, Stored, InOrder;
    var p := Kid(t, Other(s));
    var a, b, c := Kid(t, s), Kid(p, s), Kid(p, Other(s));
    KidParts(m, s, t);
    KidParts(m, s, p);
    StoredFrame(m, m', a);
    StoredFrame(m, m', b);
    StoredFrame(m, m', c);
    MakeParts(m', s, a, t.at, b);
    MakeParts(m', s, Make(s, a, t.at, b), p.at, c);
  }

  /** The partial tree with its hole on side `s`. */
  function Side0(s: Side, l: Spine, r: Spine): Spine {
    if s.Right? then l else r
  }

  /** After the one write, all parts are still stored; the open spine now ends in the root. */
  lemma LinkFrames(m: Mem, m': Mem, root: nat, node: nat, l: Spine, r: Spine, s: Side, t: Tree)
    requires Splaying(m, root, node, l, r, t) && t.Node?
    requires var b := Bottom(node, Side0(s, l, r)); b in m && m' == m[b := WithKid(m[b], s, root)]
    ensures SpineStored(m', Right, node, l) && SpineStored(m', Left, node, r)
    ensures Stored(m', Kid(t, s)) && Stored(m', Kid(t, Other(s)))
    ensures root == t.at != 0 && root in m' && KidOf(m'[root], s) == Root(Kid(t, s))
    ensures KidOf(m'[root], Other(s)) == Root(Kid(t, Other(s)))
    ensures var b := Bottom(node, Side0(s, l, r)); b in m' && KidOf(m'[b], s) == t.at && b in Region(node, l, r, t)
  {
    hide Addrs, Distinct, Stored, InOrder, SpineStored, SpineDistinct, SpineAddrs, OrderOf, Whole;
    KidParts(m, s, t);
    SpineIn(m, Right, node, l);
    SpineIn(m, Left, node, r);
    StoredFrame(m, m', Kid(t, s));
    StoredFrame(m, m', Kid(t, Other(s)));
    SpineFrame(m, m', Right, node, l);
    SpineFrame(m, m', Left, node, r);
  }

  /** The node of the root joins the partial tree on its side; the search goes on below it. */
  lemma LinkKeeps(m: Mem, m': Mem, root: nat, node: nat, l: Spine, r: Spine, s: Side, t: Tree)
    requires Splaying(m, root, node, l, r, t) && t.Node?
    requires var b := Bottom(node, Side0(s, l, r)); b in m && m' == m[b := WithKid(m[b], s, root)]
    ensures root in m' && KidOf(m'[root], s) == Root(Kid(t, s))
    ensures var c := Link(Side0(s, l, r), t.at, Kid(t, Other(s)));
            var l', r' := if s.Right? then c else l, if s.Right? then r else c;
            && Splaying(m', Root(Kid(t, s)), node, l', r', Kid(t, s))
            && Whole(l', r', Kid(t, s)) == Whole(l, r, t)
            && Region(node, l', r', Kid(t, s)) == Region(node, l, r, t)
    ensures OnlyIn(m, m', Region(node, l, r, t))
  {
    hide Addrs, Distinct, Stored, InOrder, SpineStored, SpineDistinct, SpineAddrs, OrderOf, Whole;
    LinkOrder(l, r, s, t);
    KidParts(m, s, t);
    LinkFrames(m, m', root, node, l, r, s, t);
    LinkParts(m', s, node, Side0(s, l, r), t.at, Kid(t, Other(s)));
  }

  lemma LinkOrder(l: Spine, r: Spine, s: Side, t: Tree)
    requires t.Node?
    ensures var c := Link(Side0(s, l, r), t.at, Kid(t, Other(s)));
            Whole(if s.Right? then c else l, if s.Right? then r else c, Kid(t, s)) == Whole(l, r, t)
  {
  }

  lemma LinkParts(m: Mem, s: Side, node: nat, c: Spine, at: nat, sub: Tree)
    requires SpineStored(m, s, node, c) && SpineDistinct(c) && at !in SpineAddrs(c) && at !in Addrs(sub)
    requires Addrs(sub) !! SpineAddrs(c) && Distinct(sub)
    requires at != 0 && at in m && KidOf(m[at], Other(s)) == Root(sub) && Stored(m, sub)
    requires Bottom(node, c) in m && KidOf(m[Bottom(node, c)], s) == at
    ensures SpineStored(m, s, node, Link(c, at, sub)) && SpineDistinct(Link(c, at, sub))
    ensures SpineAddrs(Link(c, at, sub)) == SpineAddrs(c) + {at} + Addrs(sub)
  {
  }

  /** The four writes of SPLAY_ASSEMBLE. */
  ghost function Assembled(m: Mem, root: nat, node: nat, left: nat, right: nat): Mem
    requires root in m && node in m && left in m && right in m
  {
    var m1 := m[left := m[left].(right := m[root].left)];
    var m2 := m1[right := m1[right].(left := m1[root].right)];
    var m3 := m2[root := m2[root].(left := m2[node].right)];
    m3[root := m3[root].(right := m3[node].left)]
  }

  /** The root between the two completed partial trees. */
  function Result(l: Spine, r: Spine, t: Tree): Tree
    requires t.Node?
  {
    Node(Fill(Right, l, t.left), t.at, Fill(Left, r, t.right))
  }

  lemma AssembleIs(m: Mem, root: nat, node: nat, l: Spine, r: Spine, t: Tree)
    requires Splaying(m, root, node, l, r, t) && t.Node?
    requires root in m && node in m && Bottom(node, l) in m && Bottom(node, r) in m
    ensures var m' := Assembled(m, root, node, Bottom(node, l), Bottom(node, r));
            && Stored(m', Result(l, r, t)) && Distinct(Result(l, r, t)) && node !in Addrs(Result(l, r, t))
            && InOrder(Result(l, r, t)) == Whole(l, r, t)
            && Addrs(Result(l, r, t)) + {node} == Region(node, l, r, t) && OnlyIn(m, m', Region(node, l, r, t))
  {
    hide Addrs, Distinct, Stored, InOrder, SpineStored, SpineDistinct, SpineAddrs, Fill, Whole, OrderOf, Splaying;
    ResultRegion(m, root, node, l, r, t);
    var left, right := Bottom(node, l), Bottom(node, r);
    AssembleApart(m, root, node, l, r, t);
    var m1 := m[left := m[left].(right := m[root].left)];
    var m2 := m1[right := m1[right].(left := m1[root].right)];
    HolesFilled(m, m1, m2, root, node, l, r, t);
    var m' := Assembled(m, root, node, left, right);
    StoredFrame(m2, m', Fill(Right, l, t.left));
    StoredFrame(m2, m', Fill(Left, r, t.right));
    MakeParts(m', Left, Fill(Right, l, t.left), t.at, Fill(Left, r, t.right));
    ResultOrder(l, r, t);
  }

  lemma ResultRegion(m: Mem, root: nat, node: nat, l: Spine, r: Spine, t: Tree)
    requires Splaying(m, root, node, l, r, t) && t.Node?
    ensures Addrs(Result(l, r, t)) + {node} == Region(node, l, r, t)
    ensures root in Region(node, l, r, t) && Bottom(node, l) in Region(node, l, r, t)
    ensures Bottom(node, r) in Region(node, l, r, t)
  {
    hide Distinct, Stored, InOrder, SpineStored, SpineDistinct, SpineAddrs, Fill;
    FillAddrs(Right, l, t.left);
    FillAddrs(Left, r, t.right);
    SpineIn(m, Right, node, l);
    SpineIn(m, Left, node, r);
  }

  /** The root and the two completed trees are apart from each other and from the dummy. */
  lemma AssembleApart(m: Mem, root: nat, node: nat, l: Spine, r: Spine, t: Tree)
    requires Splaying(m, root, node, l, r, t) && t.Node?
    ensures var a, b := Fill(Right, l, t.left), Fill(Left, r, t.right);
            && Distinct(a) && Distinct(b) && Addrs(a) !! Addrs(b) && root == t.at && root != 0
            && root !in Addrs(a) && root !in Addrs(b) && node !in Addrs(a) && node !in Addrs(b) && node != root
            && Bottom(node, l) != root && Bottom(node, r) != root
  {
    hide Addrs, Distinct, Stored, InOrder, SpineStored, SpineDistinct, SpineAddrs, Fill;
    KidParts(m, Left, t);
    FillAddrs(Right, l, t.left);
    FillAddrs(Left, r, t.right);
    SpineIn(m, Right, node, l);
    SpineIn(m, Left, node, r);
  }

  /** The first two writes fill the holes with the children of the root. */
  lemma HolesFilled(m: Mem, m1: Mem, m2: Mem, root: nat, node: nat, l: Spine, r: Spine, t: Tree)
    requires Splaying(m, root, node, l, r, t) && t.Node?
    requires root in m && node in m && Bottom(node, l) in m && Bottom(node, r) in m
    requires m1 == m[Bottom(node, l) := m[Bottom(node, l)].(right := m[root].left)]
    requires root in m1 && m2 == m1[Bottom(node, r) := m1[Bottom(node, r)].(left := m1[root].right)]
    ensures Stored(m2, Fill(Right, l, t.left)) && m2[node].right == Root(Fill(Right, l, t.left))
    ensures Stored(m2, Fill(Left, r, t.right)) && m2[node].left == Root(Fill(Left, r, t.right))
    ensures m2[root] == m[root]
  {
    hide Addrs, Distinct, Stored, InOrder, SpineStored, SpineDistinct, SpineAddrs, Fill, Whole, OrderOf;
    KidParts(m, Left, t);
    SpineIn(m, Right, node, l);
    SpineIn(m, Left, node, r);
    SpineFrame(m, m1, Right, node, l);
    SpineFrame(m, m1, Left, node, r);
    SpineFrame(m1, m2, Right, node, l);
    SpineFrame(m1, m2, Left, node, r);
    StoredFrame(m, m2, t.left);
    StoredFrame(m, m2, t.right);
    FillStored(m2, Right, node, l, t.left);
    FillStored(m2, Left, node, r, t.right);
  }

  lemma ResultOrder(l: Spine, r: Spine, t: Tree)
    requires t.Node?
    ensures InOrder(Result(l, r, t)) == Whole(l, r, t)
    ensures InOrder(Fill(Right, l, t.left)) == OrderOf(Right, l) + InOrder(t.left)
    ensures InOrder(Fill(Left, r, t.right)) == InOrder(t.right) + OrderOf(Left, r)
  {
    FillOrder(Right, l, t.left);
    FillOrder(Left, r, t.right);
  }
}
