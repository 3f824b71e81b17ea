/** Red-black insertion, removal and traversal by pointer surgery, as the RB_ macros do them. */
module RBTree {
  import opened Basics
  import opened RBModel

  /** A rotation that moves `t` down to side `s`. */
  function Rotated(s: Side, t: Tree): Tree
    requires t.Node? && Kid(t, Other(s)).Node?
  {
    var p := Kid(t, Other(s));
    Make(s, Make(s, Kid(t, s), t.at, t.color, Kid(p, s)), p.at, p.color, Kid(p, Other(s)))
  }

  lemma RotatedOrder(s: Side, t: Tree)
    requires t.Node? && Kid(t, Other(s)).Node?
    ensures InOrder(Rotated(s, t)) == InOrder(t)
  {
    assert s.Left? ==> InOrder(t.right) == InOrder(t.right.left) + [t.right.at] + InOrder(t.right.right);
    assert s.Right? ==> InOrder(t.left) == InOrder(t.left.left) + [t.left.at] + InOrder(t.left.right);
  }

  /** The subtrees and the two nodes a rotation rearranges are apart. */
  lemma RotatedDistinct(s: Side, t: Tree)
    requires t.Node? && Kid(t, Other(s)).Node? && Distinct(t)
    ensures var a, p := Kid(t, s), Kid(t, Other(s));
            var b, c := Kid(p, s), Kid(p, Other(s));
            && Addrs(t) == Addrs(a) + {t.at} + Addrs(b) + {p.at} + Addrs(c)
            && Addrs(Rotated(s, t)) == Addrs(t) && Distinct(Rotated(s, t)) && Root(Rotated(s, t)) == p.at
            && t.at != p.at && t.at !in Addrs(a) + Addrs(b) + Addrs(c) && p.at !in Addrs(a) + Addrs(b) + Addrs(c)
            && Addrs(a) !! Addrs(b) && Addrs(a) !! Addrs(c) && Addrs(b) !! Addrs(c) && Distinct(b)
  {
  }

  ghost function RootSet(t: Tree): set<nat> {
    if t.Nil? then {} else {t.at}
  }

  lemma RootIn(t: Tree)
    ensures RootSet(t) <= Addrs(t)
    ensures t.Nil? ==> Addrs(t) == {}
  {
  }

  /** RB_HEAD, with the memory its pointers lead into. */
  class Head {
    var mem: Mem
    var root: nat

    constructor (mem: Mem)
      ensures this.mem == mem && root == 0 && tree == Nil && Valid()
    {
      this.mem := mem;
      root := 0;
      tree := Nil;
    }

    /** The memory represents the tree. */
    ghost predicate Holds(t: Tree)
      reads this
    {
      Whole(mem, root, t)
    }

    /** The parts of the represented tree at a node. */
    lemma Open(c: Ctx, t: Tree)
      requires Holds(Plug(c, t))
      ensures CtxStored(mem, c, Root(t)) && Stored(mem, t, CtxAt(c)) && CtxDistinct(c) && Distinct(t)
      ensures Addrs(t) !! CtxAddrs(c) && root == CtxRoot(c, Root(t))
    {
      PartsAreWhole(mem, root, c, t);
    }

    /** The pointer to the node at `elm` from its parent, or the root pointer, is replaced. */
    method Hook(parent: nat, elm: nat, child: nat, ghost c: Ctx)
      requires CtxStored(mem, c, elm) && CtxDistinct(c) && parent == CtxAt(c) && elm != 0 && elm !in CtxAddrs(c)
      modifies this
      ensures Hooked(old(mem), mem, c, child)
      ensures root == if c.Top? then child else old(root)
    {
      if parent != 0 {
        NotOther(c, elm);
        if mem[parent].left == elm {
          mem := mem[parent := mem[parent].(left := child)];
        } else {
          mem := mem[parent := mem[parent].(right := child)];
        }
      } else {
        root := child;
      }
    }

    /** RB_ROTATE_LEFT and RB_ROTATE_RIGHT. */
    method Rotate(s: Side, elm: nat, ghost c: Ctx, ghost t: Tree)
      requires Holds(Plug(c, t)) && t.Node? && t.at == elm && Kid(t, Other(s)).Node?
      modifies this
      ensures Holds(Plug(c, Rotated(s, t))) && mem.Keys == old(mem.Keys)
      ensures InOrder(Plug(c, Rotated(s, t))) == InOrder(Plug(c, t))
    {
      hide Addrs, Distinct, Stored, CtxAddrs, CtxStored, CtxDistinct, Whole, InOrder, Rotated, Make, Plug, SameOn,
        RotateWrites;
      RotateStart(mem, root, s, c, t);
      var tmp: nat := KidOf(mem[elm], Other(s));
      var moved: nat := KidOf(mem[tmp], s);
      mem := mem[elm := WithKid(mem[elm], Other(s), moved)];
      if moved != 0 {
        mem := mem[moved := mem[moved].(parent := elm)];
      }
      mem := mem[tmp := mem[tmp].(parent := mem[elm].parent)];
      ghost var m1 := mem;
      RotateMiddle(old(mem), m1, root, s, c, t);
      Hook(mem[elm].parent, elm, tmp, c);
      ghost var m2 := mem;
      mem := mem[tmp := WithKid(mem[tmp], s, elm)];
      mem := mem[elm := mem[elm].(parent := tmp)];
      RotateEnd(old(mem), m1, m2, mem, old(root), root, s, c, t);
      RotateDone(old(mem), mem, old(root), root, s, c, t);
    }

    /** Assigning RB_COLOR. */
    method SetColor(elm: nat, color: Color, ghost c: Ctx, ghost t: Tree)
      requires Holds(Plug(c, t)) && t.Node? && t.at == elm
      modifies this
      ensures Holds(Plug(c, t.(color := color))) && mem.Keys == old(mem.Keys)
      ensures InOrder(Plug(c, t.(color := color))) == InOrder(Plug(c, t))
    {
      Open(c, t);
      mem := mem[elm := mem[elm].(color := color)];
      ghost var t' := t.(color := color);
      StoredFrame(old(mem), mem, t.left, elm);
      StoredFrame(old(mem), mem, t.right, elm);
      if c.In? { SameKid(old(mem), c, elm); }
      Replaced(old(mem), mem, old(root), root, c, t, t');
      InOrderPlug(c, t);
      InOrderPlug(c, t');
    }

    lemma RootIs(t: Tree)
      requires Holds(t)
      ensures root == Root(t)
    {
    }

    /** What memory holds at a node, its parent and its sibling. */
    lemma Look(c: Ctx, t: Tree)
      requires Holds(Plug(c, t))
      ensures t.Node? ==> t.at != 0 && t.at in mem && mem[t.at] == Cell(Root(t.left), Root(t.right), CtxAt(c), t.color)
      ensures c.In? ==>
                && c.at != 0 && c.at in mem
                && mem[c.at] == CellFor(c.side, Root(t), Root(c.other), CtxAt(c.up), c.color)
                && (c.other.Node? ==> c.other.at != 0 && c.other.at in mem && mem[c.other.at].color == c.other.color)
                && (c.other.Node? || t.Node? ==> Root(c.other) != Root(t))
    {
      Open(c, t);
      if t.Node? { assert t.at in Addrs(t); }
    }

    /** The branch of RB_INSERT_COLOR for a red uncle. */
    method Recolor(parent: nat, gparent: nat, uncle: nat, ghost c: Ctx, ghost t: Tree) returns (ghost t': Tree)
      requires Holds(Plug(c, t)) && RedAt(c, t) && c.In? && c.color.Red? && c.up.In? && IsRed(c.up.other)
      requires parent == c.at && gparent == c.up.at && uncle == c.up.other.at
      modifies this
      ensures Holds(Plug(c.up.up, t')) && RedAt(c.up.up, t') && t'.at == gparent
      ensures InOrder(Plug(c.up.up, t')) == InOrder(Plug(c, t)) && mem.Keys == old(mem.Keys)
    {
      hide InOrder, Whole, BalIn, Bal;
      ghost var g := c.up;
      ghost var x, y := Make(c.side, t, c.at, Red, c.other), Make(c.side, t, c.at, Black, c.other);
      RedParent(c, t);
      MakeOther(g.side, g.other, g.at, g.color, x);
      SetColor(uncle, Black, In(Other(g.side), g.up, g.at, Black, x), g.other);
      ghost var u := Blacken(g.other);
      MakeOther(g.side, u, g.at, g.color, x);
      RecoloredMake(c.side, t, c.at, Red, Black, c.other);
      SetColor(parent, Black, In(g.side, g.up, g.at, Black, u), x);
      RecoloredMake(g.side, y, g.at, Black, Red, u);
      SetColor(gparent, Red, g.up, Make(g.side, y, g.at, Black, u));
      t' := Make(g.side, y, g.at, Red, u);
      UncleRed(c, t);
    }

    /** The last two statements of the branches of RB_INSERT_COLOR for a black uncle. */
    method Straighten(s: Side, parent: nat, gparent: nat, ghost c: Ctx, ghost t: Tree) returns (ghost c': Ctx)
      requires Holds(Plug(c, t)) && RedAt(c, t) && c.In? && c.color.Red? && c.up.In? && !IsRed(c.up.other)
      requires s == c.side == c.up.side && parent == c.at && gparent == c.up.at
      modifies this
      ensures Holds(Plug(c', t)) && RedAt(c', t) && c'.In? && c'.color.Black? && Depth(c') < Depth(c)
      ensures InOrder(Plug(c', t)) == InOrder(Plug(c, t)) && mem.Keys == old(mem.Keys)
    {
      hide InOrder, Whole, BalIn, Bal;
      ghost var g := c.up;
      ghost var x, y := Make(s, t, c.at, Red, c.other), Make(s, t, c.at, Black, c.other);
      RedParent(c, t);
      RecoloredMake(s, t, c.at, Red, Black, c.other);
      SetColor(parent, Black, In(s, g.up, g.at, Black, g.other), x);
      RecoloredMake(s, y, g.at, Black, Red, g.other);
      SetColor(gparent, Red, g.up, Make(s, y, g.at, Black, g.other));
      ghost var z := Make(s, y, g.at, Red, g.other);
      OtherTwice(s, z);
      Rotate(Other(s), gparent, g.up, z);
      RotatedBack(s, t, c.at, c.other, g.at, g.other);
      c' := In(s, g.up, c.at, Black, Make(s, c.other, g.at, Red, g.other));
      OuterChild(c, t);
    }

    /** The branch of RB_INSERT_COLOR for a black uncle. */
    method Turn(s: Side, node: nat, parent0: nat, gparent: nat, ghost c0: Ctx, ghost t0: Tree)
      returns (elm: nat, ghost c: Ctx, ghost t: Tree)
      requires Holds(Plug(c0, t0)) && RedAt(c0, t0) && c0.In? && c0.color.Red? && c0.up.In? && !IsRed(c0.up.other)
      requires s == c0.up.side && node == t0.at && parent0 == c0.at && gparent == c0.up.at
      modifies this
      ensures Holds(Plug(c, t)) && RedAt(c, t) && t.at == elm && c.In? && c.color.Black? && Depth(c) < Depth(c0)
      ensures InOrder(Plug(c, t)) == InOrder(Plug(c0, t0)) && mem.Keys == old(mem.Keys)
    {
      hide InOrder, Whole, BalIn, Bal;
      var parent := parent0;
      elm := node;
      c, t := c0, t0;
      Look(c, t);
      if KidOf(mem[parent], Other(s)) == elm {
        ghost var x := Make(c.side, t, c.at, c.color, c.other);
        MakeOther(s, t, c.at, c.color, c.other);
        MakeKids(s, t);
        Rotate(s, parent, c.up, x);
        InnerChild(c, t);
        elm, parent := parent, elm;
        c, t := In(s, c.up, t.at, Red, Kid(t, Other(s))), Make(s, c.other, c.at, Red, Kid(t, s));
      }
      c := Straighten(s, parent, gparent, c, t);
    }

    /** RB_INSERT_COLOR. */
    method InsertColor(node: nat, ghost c0: Ctx, ghost t0: Tree) returns (ghost tree: Tree)
      requires Holds(Plug(c0, t0)) && RedAt(c0, t0) && t0.at == node
      modifies this
      ensures Holds(tree) && Bal(tree) && !IsRed(tree)
      ensures InOrder(tree) == InOrder(Plug(c0, t0)) && mem.Keys == old(mem.Keys)
    {
      hide InOrder, Whole, BalIn, Bal;
      var elm := node;
      ghost var c, t := c0, t0;
      Look(c, t);
      while mem[elm].parent != 0 && mem[mem[elm].parent].color.Red?
        invariant Holds(Plug(c, t)) && RedAt(c, t) && t.at == elm && mem.Keys == old(mem.Keys)
        invariant InOrder(Plug(c, t)) == InOrder(Plug(c0, t0))
        invariant elm in mem && mem[elm].parent == CtxAt(c)
        invariant (c.In? ==> c.at != 0 && c.at in mem && mem[c.at].color == c.color)
        decreases Depth(c)
      {
        Look(c, t);
        RedParent(c, t);
        assert Depth(c.up) + 1 == Depth(c) && Depth(c.up.up) + 2 == Depth(c);
        Look(c.up, Make(c.side, t, c.at, c.color, c.other));
        var parent: nat := mem[elm].parent;
        var gparent: nat := mem[parent].parent;
        var s := if parent == mem[gparent].left then Left else Right;
        var uncle: nat := KidOf(mem[gparent], Other(s));
        if uncle != 0 && mem[uncle].color.Red? {
          ghost var t' := Recolor(parent, gparent, uncle, c, t);
          elm := gparent;
          c, t := c.up.up, t';
        } else {
          ghost var c', t';
          elm, c', t' := Turn(s, elm, parent, gparent, c, t);
          c, t := c', t';
        }
        Look(c, t);
      }
      tree := Plug(c, t);
      RedAtBlackParent(c, t);
      NodeAbove(c, t);
      RootIs(tree);
      SetColor(root, Black, Top, tree);
      tree := Blacken(tree);
    }

    // ---------------------------------------------------------------- removal

    /** RB_REMOVE_COLOR, a red sibling. */
    method SiblingUp(s: Side, parent: nat, tmp: nat, ghost c: Ctx, ghost x: Tree) returns (ghost c': Ctx)
      requires Holds(Plug(c, x)) && Deficit(c, x) && c.In? && IsRed(c.other)
      requires s == c.side && parent == c.at && tmp == c.other.at
      modifies this
      ensures Holds(Plug(c', x)) && Deficit(c', x) && c'.In? && c'.side == s && c'.at == parent && c'.other.Node?
      ensures !IsRed(c'.other)
      ensures Depth(c') == Depth(c) + 1 && c'.color.Red?
      ensures InOrder(Plug(c', x)) == InOrder(Plug(c, x)) && mem.Keys == old(mem.Keys)
    {
      hide InOrder, Whole, Deficit, Bal;
      RedSibling(c, x);
      ghost var sib := c.other;
      MakeOther(s, sib, c.at, Black, x);
      SetColor(tmp, Black, In(Other(s), c.up, c.at, Black, x), sib);
      ghost var sib' := sib.(color := Black);
      MakeOther(s, sib', c.at, Black, x);
      RecoloredMake(s, x, c.at, Black, Red, sib');
      SetColor(parent, Red, c.up, Make(s, x, c.at, Black, sib'));
      Rotate(s, parent, c.up, Make(s, x, c.at, Red, sib'));
      c' := In(s, In(s, c.up, sib.at, Black, Kid(sib, Other(s))), c.at, Red, Kid(sib, s));
      assert Rotated(s, Make(s, x, c.at, Red, sib'))
          == Make(s, Make(s, x, c.at, Red, Kid(sib, s)), sib.at, Black, Kid(sib, Other(s)));
    }

    /** RB_REMOVE_COLOR, the near child of a black sibling is red and the far one is not. */
    method TurnSibling(s: Side, tmp: nat, near: nat, ghost c: Ctx, ghost x: Tree) returns (ghost c': Ctx)
      requires Holds(Plug(c, x)) && Deficit(c, x) && c.In? && c.other.Node? && !IsRed(c.other)
      requires IsRed(Kid(c.other, c.side)) && !IsRed(Kid(c.other, Other(c.side)))
      requires s == c.side && tmp == c.other.at && near == Kid(c.other, s).at
      modifies this
      ensures Holds(Plug(c', x)) && Deficit(c', x) && c'.In? && c'.side == s && c'.at == c.at && c'.up == c.up
      ensures c'.color == c.color
      ensures c'.other.Node? && !IsRed(c'.other) && IsRed(Kid(c'.other, Other(s)))
      ensures InOrder(Plug(c', x)) == InOrder(Plug(c, x)) && mem.Keys == old(mem.Keys)
    {
      hide InOrder, Whole, Deficit, Bal;
      NearNephew(c, x);
      ghost var sib := c.other;
      ghost var n, far := Kid(sib, s), Kid(sib, Other(s));
      MakeKids(s, sib);
      ghost var above := In(Other(s), c.up, c.at, c.color, x);
      MakeOther(s, sib, c.at, c.color, x);
      SetColor(near, Black, In(s, above, sib.at, Black, far), n);
      ghost var n' := n.(color := Black);
      RecoloredMake(s, n', sib.at, Black, Red, far);
      SetColor(tmp, Red, above, Make(s, n', sib.at, Black, far));
      ghost var y := Make(s, n', sib.at, Red, far);
      OtherTwice(s, y);
      Rotate(Other(s), tmp, above, y);
      TurnedKids(s, n', sib.at, far);
      ghost var sib' := Make(s, Kid(n, s), n.at, Black, Make(s, Kid(n, Other(s)), sib.at, Red, far));
      MakeOther(s, sib', c.at, c.color, x);
      c' := In(s, c.up, c.at, c.color, sib');
    }

    /** RB_REMOVE_COLOR, the far child of a black sibling is red. */
    method Finish(s: Side, parent: nat, tmp: nat, ghost c: Ctx, ghost x: Tree) returns (ghost tree: Tree)
      requires Holds(Plug(c, x)) && Deficit(c, x) && c.In? && !IsRed(x) && c.other.Node? && !IsRed(c.other)
      requires IsRed(Kid(c.other, Other(c.side)))
      requires s == c.side && parent == c.at && tmp == c.other.at
      modifies this
      ensures Holds(tree) && Bal(tree) && !IsRed(tree) && tree.Node?
      ensures InOrder(tree) == InOrder(Plug(c, x)) && mem.Keys == old(mem.Keys)
    {
      hide InOrder, Whole, Deficit, Bal;
      FarNephew(c, x);
      ghost var sib := c.other;
      ghost var near, far := Kid(sib, s), Kid(sib, Other(s));
      MakeKids(s, sib);
      Look(c, x);
      MakeOther(s, sib, c.at, c.color, x);
      SetColor(tmp, mem[parent].color, In(Other(s), c.up, c.at, c.color, x), sib);
      ghost var sib1 := Make(s, near, sib.at, c.color, far);
      RecoloredMake(s, near, sib.at, Black, c.color, far);
      MakeOther(s, sib1, c.at, c.color, x);
      RecoloredMake(s, x, c.at, c.color, Black, sib1);
      SetColor(parent, Black, c.up, Make(s, x, c.at, c.color, sib1));
      ghost var above := In(Other(s), c.up, c.at, Black, x);
      MakeOther(s, sib1, c.at, Black, x);
      MakeOther(s, far, sib.at, c.color, near);
      Look(above, sib1);
      Look(In(Other(s), above, sib.at, c.color, near), far);
      var red := KidOf(mem[tmp], Other(s));
      if red != 0 {
        SetColor(red, Black, In(Other(s), above, sib.at, c.color, near), far);
      }
      ghost var sib2 := Make(s, near, sib.at, c.color, Blacken(far));
      MakeOther(s, Blacken(far), sib.at, c.color, near);
      MakeOther(s, sib2, c.at, Black, x);
      Rotate(s, parent, c.up, Make(s, x, c.at, Black, sib2));
      ghost var t := Make(s, Make(s, x, c.at, Black, near), sib.at, c.color, Blacken(far));
      assert Rotated(s, Make(s, x, c.at, Black, sib2)) == t;
      tree := Plug(c.up, t);
      NodeAbove(c.up, t);
    }

    /** RB_REMOVE_COLOR, black children of a black sibling. */
    method Redden(tmp: nat, ghost c: Ctx, ghost x: Tree) returns (ghost x': Tree)
      requires Holds(Plug(c, x)) && Deficit(c, x) && c.In? && !IsRed(x) && !IsRed(c.other)
      requires c.other.Node? && !IsRed(c.other.left) && !IsRed(c.other.right) && tmp == c.other.at
      modifies this
      ensures Holds(Plug(c.up, x')) && Deficit(c.up, x') && x'.Node? && x'.at == c.at && x'.color == c.color
      ensures InOrder(Plug(c.up, x')) == InOrder(Plug(c, x)) && mem.Keys == old(mem.Keys)
    {
      hide InOrder, Whole, Deficit, Bal;
      BlackNephews(c, x);
      MakeOther(c.side, c.other, c.at, c.color, x);
      SetColor(tmp, Red, In(Other(c.side), c.up, c.at, c.color, x), c.other);
      ghost var sib' := c.other.(color := Red);
      MakeOther(c.side, sib', c.at, c.color, x);
      x' := Make(c.side, x, c.at, c.color, sib');
    }

    /** RB_REMOVE_COLOR, some red child of a black sibling: the last branch, up to its break. */
    method Borrow(s: Side, parent: nat, sibling: nat, ghost c0: Ctx, ghost x: Tree) returns (ghost tree: Tree)
      requires Holds(Plug(c0, x)) && Deficit(c0, x) && c0.In? && !IsRed(x) && c0.other.Node? && !IsRed(c0.other)
      requires IsRed(c0.other.left) || IsRed(c0.other.right)
      requires s == c0.side && parent == c0.at && sibling == c0.other.at
      modifies this
      ensures Holds(tree) && Bal(tree) && !IsRed(tree) && tree.Node?
      ensures InOrder(tree) == InOrder(Plug(c0, x)) && mem.Keys == old(mem.Keys)
    {
      hide InOrder, Whole, Deficit, Bal, Stored, CtxStored;
      var tmp := sibling;
      ghost var c := c0;
      MakeOther(s, c.other, c.at, c.color, x);
      Look(In(Other(s), c.up, c.at, c.color, x), c.other);
      KidColors(c, x);
      var far: nat := KidOf(mem[tmp], Other(s));
      if far == 0 || mem[far].color.Black? {
        var near: nat := KidOf(mem[tmp], s);
        ghost var c' := TurnSibling(s, tmp, near, c, x);
        c := c';
        Look(c, x);
        tmp := KidOf(mem[parent], Other(s));
      }
      tree := Finish(s, parent, tmp, c, x);
    }

    /** RB_REMOVE_COLOR, from the choice of the side to a black sibling. */
    method BlackSibling(s: Side, parent: nat, tmp0: nat, ghost c0: Ctx, ghost x: Tree) returns (tmp: nat, ghost c: Ctx)
      requires Holds(Plug(c0, x)) && Deficit(c0, x) && c0.In? && c0.other.Node?
      requires s == c0.side && parent == c0.at && tmp0 == c0.other.at && tmp0 in mem
      requires mem[tmp0].color == c0.other.color
      modifies this
      ensures Holds(Plug(c, x)) && Deficit(c, x) && c.In? && c.side == s && c.at == parent && c.other.Node?
      ensures !IsRed(c.other)
      ensures tmp == c.other.at && (c == c0 || (Depth(c) == Depth(c0) + 1 && c.color.Red?))
      ensures InOrder(Plug(c, x)) == InOrder(Plug(c0, x)) && mem.Keys == old(mem.Keys)
      ensures tmp in mem && mem[tmp] == Cell(Root(c.other.left), Root(c.other.right), parent, Black)
      ensures var l, r := c.other.left, c.other.right;
              && (Root(l) == 0 <==> l.Nil?) && (l.Node? ==> l.at in mem && mem[l.at].color == l.color)
              && (Root(r) == 0 <==> r.Nil?) && (r.Node? ==> r.at in mem && mem[r.at].color == r.color)
    {
      hide InOrder, Whole, Deficit, Bal, Stored, CtxStored;
      tmp, c := tmp0, c0;
      if mem[tmp].color.Red? {
        c := SiblingUp(s, parent, tmp, c, x);
        Look(c, x);
        tmp := KidOf(mem[parent], Other(s));
      }
      Look(In(Other(s), c.up, c.at, c.color, x), c.other) by { MakeOther(s, c.other, c.at, c.color, x); }
      KidColors(c, x);
    }

    /** RB_REMOVE_COLOR. */
    method RemoveColor(above: nat, node: nat, ghost c0: Ctx, ghost x0: Tree) returns (ghost tree: Tree)
      requires Holds(Plug(c0, x0)) && Deficit(c0, x0) && Root(x0) == node && CtxAt(c0) == above
      modifies this
      ensures Holds(tree) && Bal(tree) && !IsRed(tree)
      ensures InOrder(tree) == InOrder(Plug(c0, x0)) && mem.Keys == old(mem.Keys)
    {
      hide InOrder, Whole, Deficit, Bal, Stored, CtxStored;
      var parent, elm := above, node;
      ghost var c, x := c0, x0;
      Look(c, x);
      RootOrNot(c, x);
      while (elm == 0 || mem[elm].color.Black?) && elm != root
        invariant Holds(Plug(c, x)) && Deficit(c, x) && elm == Root(x) && parent == CtxAt(c)
        invariant mem.Keys == old(mem.Keys)
        invariant InOrder(Plug(c, x)) == InOrder(Plug(c0, x0))
        invariant (elm == 0 <==> x.Nil?) && (elm != 0 ==> elm in mem && mem[elm].color == x.color)
        invariant elm == root <==> c.Top?
        decreases if IsRed(x) then 0 else 1 + Depth(c)
      {
        Look(c, x);
        DeficitSibling(c, x);
        var s := if mem[parent].left == elm then Left else Right;
        var tmp: nat := KidOf(mem[parent], Other(s));
        ghost var d := Depth(c);
        ghost var c';
        tmp, c' := BlackSibling(s, parent, tmp, c, x);
        c := c';
        if (mem[tmp].left == 0 || mem[mem[tmp].left].color.Black?)
           && (mem[tmp].right == 0 || mem[mem[tmp].right].color.Black?)
        {
          ghost var x' := Redden(tmp, c, x);
          c, x := c.up, x';
          Look(c, x);
          elm := parent;
          parent := mem[elm].parent;
          RootOrNot(c, x);
        } else {
          tree := Borrow(s, parent, tmp, c, x);
          c, x := Top, tree;
          RootIs(tree);
          Look(c, x);
          WholeDeficit(tree);
          elm := root;
          parent := 0;
          break;
        }
      }
      DeficitEnds(c, x);
      if elm != 0 {
        SetColor(elm, Black, c, x);
      }
      tree := Plug(c, Blacken(x));
    }

    /** The node is the root exactly when there is nothing above it. */
    lemma RootOrNot(c: Ctx, x: Tree)
      requires Holds(Plug(c, x))
      ensures Root(x) == root <==> c.Top?
    {
      Open(c, x);
      if c.In? { RootAbove(mem, c, Root(x)); }
    }

    /** Colours of the sibling's children. */
    lemma KidColors(c: Ctx, x: Tree)
      requires Holds(Plug(c, x)) && c.In? && c.other.Node?
      ensures var l, r := c.other.left, c.other.right;
              && (Root(l) == 0 <==> l.Nil?) && (l.Node? ==> l.at in mem && mem[l.at].color == l.color)
              && (Root(r) == 0 <==> r.Nil?) && (r.Node? ==> r.at in mem && mem[r.at].color == r.color)
    {
      Open(c, x);
      assert Stored(mem, c.other, c.at);
      assert Stored(mem, c.other.left, c.other.at) && Stored(mem, c.other.right, c.other.at);
    }

    /** The statements of RB_REMOVE that unhook a node with at most one child. */
    method Splice(elm: nat, child: nat, parent: nat, ghost c: Ctx, ghost t: Tree, ghost x: Tree)
      requires Holds(Plug(c, t)) && t.Node? && t.at == elm
      requires (t.left.Nil? && x == t.right) || (t.right.Nil? && x == t.left)
      requires child == Root(x) && parent == CtxAt(c)
      modifies this
      ensures Holds(Plug(c, x)) && mem.Keys == old(mem.Keys) && elm !in Addrs(Plug(c, x))
      ensures elm in old(mem) && elm in mem && mem[elm] == old(mem)[elm]
    {
      hide Whole, InOrder, Plug, SameOn, CtxStored, CtxDistinct, CtxAddrs;
      Open(c, t);
      CtxApart(c, t);
      SpliceStart(mem, t, x, CtxAt(c));
      if child != 0 {
        mem := mem[child := mem[child].(parent := parent)];
      }
      ghost var m1 := mem;
      SameElsewhere(old(mem), m1, child, CtxAddrs(c));
      CtxFrame(old(mem), m1, c, elm);
      Hook(parent, elm, child, c);
      SpliceDone(old(mem), m1, mem, old(root), root, c, t, x);
    }

    /** The statements of RB_REMOVE that put the successor in the place of the removed node. */
    method Transplant(was: nat, elm: nat, ghost c: Ctx, ghost l: Tree, ghost color: Color, ghost r: Tree)
      requires Holds(Plug(c, Node(l, was, color, r))) && l.Node?
      requires elm != 0 && elm in mem && elm !in Addrs(Plug(c, Node(l, was, color, r)))
      modifies this
      ensures Holds(Plug(c, Node(l, elm, color, r))) && mem.Keys == old(mem.Keys)
    {
      hide Whole, InOrder, Plug, SameOn, CtxStored, CtxDistinct, CtxAddrs, Addrs, Stored, Distinct;
      TransplantStart(mem, root, c, l, was, color, r, elm);
      mem := mem[elm := mem[was]];
      ghost var m1 := mem;
      SameElsewhere(old(mem), m1, elm, CtxAddrs(c));
      CtxFrame(old(mem), m1, c, was);
      Hook(mem[was].parent, was, elm, c);
      ghost var m2 := mem;
      TransplantHooked(old(mem), m1, m2, root, c, l, was, color, r, elm);
      mem := mem[mem[was].left := mem[mem[was].left].(parent := elm)];
      if mem[was].right != 0 {
        mem := mem[mem[was].right := mem[mem[was].right].(parent := elm)];
      }
      TransplantDone(old(mem), m1, m2, mem, old(root), root, c, l, was, color, r, elm);
    }

    // ---------------------------------------------------------------- the operations

    ghost var tree: Tree

    /** Pointers, colours and black heights are those of a red-black tree. */
    ghost predicate Valid()
      reads this
    {
      Holds(tree) && Bal(tree) && !IsRed(tree)
    }

    /** RB_REMOVE of a node with two children: its successor takes its place. */
    method RemoveInner(was: nat, ghost c: Ctx, ghost t: Tree) returns (ghost t': Tree)
      requires Holds(Plug(c, t)) && Bal(Plug(c, t)) && !IsRed(Plug(c, t))
      requires t.Node? && t.at == was && t.left.Node? && t.right.Node?
      modifies this
      ensures Holds(t') && Bal(t') && !IsRed(t') && mem.Keys == old(mem.Keys)
      ensures InOrder(t') == (LeftOf(c) + InOrder(t.left)) + (InOrder(t.right) + RightOf(c))
    {
      hide Whole, InOrder, Deficit, Bal, Stored, CtxStored, MinReplaced;
      ghost var base := In(Right, c, was, t.color, t.left);
      Look(c, t);
      var elm: nat := mem[was].right;
      ghost var d, n := base, t.right;
      Down(Right, c, t);
      Look(d, n);
      KidRoots(d, n);
      while mem[elm].left != 0
        invariant mem == old(mem) && root == old(root)
        invariant n.Node? && elm == n.at && Plug(d, n) == Plug(c, t) && elm in mem
        invariant mem[elm] == Cell(Root(n.left), Root(n.right), CtxAt(d), n.color)
        invariant (Root(n.left) == 0 <==> n.left.Nil?)
        invariant MinCtx(d, n) == MinCtx(base, t.right) && MinNode(n) == MinNode(t.right)
        decreases n
      {
        Down(Left, d, n);
        d, n := In(Left, d, n.at, n.color, n.right), n.left;
        elm := mem[elm].left;
        Look(d, n);
        KidRoots(d, n);
      }
      Look(d, n);
      var child: nat := mem[elm].right;
      var parent: nat := mem[elm].parent;
      var color := mem[elm].color;
      DistinctTree(Plug(c, t));
      SuccessorParent(c, t);
      Splice(elm, child, parent, d, n, n.right);
      MinPlug(base, t.right, n.right);
      MinCtxAt(base, In(Right, c, elm, t.color, t.left), t.right);
      ghost var r := MinReplaced(t.right, n.right);
      assert Plug(d, n.right) == Plug(c, Node(t.left, was, t.color, r));
      if mem[elm].parent == was {
        parent := elm;
      }
      Transplant(was, elm, c, t.left, t.color, r);
      ghost var d' := MinCtx(In(Right, c, elm, t.color, t.left), t.right);
      MinPlug(In(Right, c, elm, t.color, t.left), t.right, n.right);
      SuccessorBal(c, t, elm);
      SuccessorOrder(c, t);
      if color.Black? {
        t' := RemoveColor(parent, child, d', n.right);
      } else {
        t' := Plug(d', n.right);
      }
    }

    lemma KidRoots(c: Ctx, t: Tree)
      requires Holds(Plug(c, t)) && t.Node?
      ensures (Root(t.left) == 0 <==> t.left.Nil?) && (Root(t.right) == 0 <==> t.right.Nil?)
    {
      Open(c, t);
      assert Stored(mem, t.left, t.at) && Stored(mem, t.right, t.at);
    }

    /** RB_REMOVE. */
    method Remove(node: nat) returns (removed: nat)
      requires Valid() && node in Addrs(tree)
      modifies this
      ensures Valid() && removed == node && mem.Keys == old(mem.Keys)
      ensures InOrder(tree) == Without(old(InOrder(tree)), node)
    {
      hide Whole, InOrder, Deficit, Bal, Stored, CtxStored;
      ghost var r := Locate(Top, tree, node);
      ghost var c, t := r.0, r.1;
      Look(c, t);
      KidRoots(c, t);
      DistinctTree(tree);
      NotBefore(c, t);
      WithoutAt(LeftOf(c) + InOrder(t.left), node, InOrder(t.right) + RightOf(c));
      removed := node;
      if mem[node].left != 0 && mem[node].right != 0 {
        tree := RemoveInner(node, c, t);
        return;
      }
      var child: nat := if mem[node].left == 0 then mem[node].right else mem[node].left;
      ghost var x := if t.left.Nil? then t.right else t.left;
      var parent: nat := mem[node].parent;
      var color := mem[node].color;
      Splice(node, child, parent, c, t, x);
      SpliceBal(c, t, x);
      SpliceOrder(c, t, x);
      if color.Black? {
        tree := RemoveColor(parent, child, c, x);
      } else {
        tree := Plug(c, x);
      }
    }

    lemma DistinctTree(t: Tree)
      requires Holds(t)
      ensures Distinct(t)
    {
    }

    /** RB_INSERT. */
    method Insert(elm: nat, cmp: (nat, nat) -> int) returns (found: nat)
      requires Valid() && elm != 0 && elm !in Addrs(tree)
      requires Preorder(cmp) && SortedBy(InOrder(tree), cmp)
      modifies this
      ensures Valid() && SortedBy(InOrder(tree), cmp)
      ensures found != 0 ==> found in old(InOrder(tree)) && cmp(elm, found) == 0
      ensures found != 0 ==> mem == old(mem) && root == old(root) && tree == old(tree)
      ensures found == 0 ==>
                && (forall a | a in old(InOrder(tree)) :: cmp(elm, a) != 0)
                && exists i :: 0 <= i <= |old(InOrder(tree))| &&
                     InOrder(tree) == old(InOrder(tree))[..i] + [elm] + old(InOrder(tree))[i..]
    {
      hide Whole, InOrder, Bal, Stored, CtxStored, Preorder, Total, SortedBy, Between;
      PreorderIsTotal(cmp);
      var tmp: nat := root;
      var parent: nat := 0;
      var comp := 0;
      ghost var c, t := Top, tree;
      RootIs(tree);
      Look(c, t);
      BetweenTop(elm, cmp);
      while tmp != 0
        invariant mem == old(mem) && root == old(root) && tree == old(tree)
        invariant Plug(c, t) == tree && tmp == Root(t) && (tmp != 0 <==> t.Node?) && parent == CtxAt(c)
        invariant (parent == 0 <==> c.Top?)
        invariant c.In? ==> (comp < 0 <==> c.side.Left?)
        invariant tmp != 0 ==> tmp in mem && mem[tmp] == Cell(Root(t.left), Root(t.right), CtxAt(c), t.color)
        invariant Between(c, elm, cmp)
        decreases t
      {
        parent := tmp;
        comp := cmp(elm, parent);
        KidRoots(c, t);
        if comp < 0 {
          DescendLeft(c, t, elm, cmp);
          Down(Left, c, t);
          tmp := mem[tmp].left;
          c, t := In(Left, c, t.at, t.color, t.right), t.left;
        } else if comp > 0 {
          DescendRight(c, t, elm, cmp);
          Down(Right, c, t);
          tmp := mem[tmp].right;
          c, t := In(Right, c, t.at, t.color, t.left), t.right;
        } else {
          NodeInOrder(c, t);
          return tmp;
        }
        Look(c, t);
      }
      Attach(elm, parent, comp, c);
      FreshLeaf(c, tree, elm);
      PlacedHere(c, elm, cmp);
      tree := InsertColor(elm, c, Node(Nil, elm, Red, Nil));
      found := 0;
    }

    /** The statements of RB_INSERT that hang a new red leaf on its parent. */
    method Attach(elm: nat, parent: nat, comp: int, ghost c: Ctx)
      requires Holds(Plug(c, Nil)) && elm != 0 && elm !in Addrs(Plug(c, Nil)) && parent == CtxAt(c)
      requires c.In? ==> (comp < 0 <==> c.side.Left?)
      modifies this
      ensures Holds(Plug(c, Node(Nil, elm, Red, Nil))) && tree == old(tree)
    {
      hide Whole, InOrder, Plug, SameOn;
      Open(c, Nil);
      AddrsPlug(c, Nil);
      Look(c, Nil);
      mem := mem[elm := Cell(0, 0, parent, Red)];
      ghost var m1 := mem;
      if parent != 0 {
        mem := mem[parent := WithKid(mem[parent], if comp < 0 then Left else Right, elm)];
      } else {
        root := elm;
      }
      TwoChanged(old(mem), mem, elm, parent, CtxAddrs(c));
      Replaced(old(mem), mem, old(root), root, c, Nil, Node(Nil, elm, Red, Nil));
    }

    // ---------------------------------------------------------------- traversal

    /** RB_NEXT: the element after the given one, or NULL after the last. */
    method Next(node: nat) returns (next: nat)
      requires Valid() && node in Addrs(tree)
      ensures next == SuccessorIn(InOrder(tree), node)
    {
      hide Whole, InOrder, Bal, Stored, CtxStored;
      ghost var r := Locate(Top, tree, node);
      ghost var c, t := r.0, r.1;
      Look(c, t);
      KidRoots(c, t);
      DistinctTree(tree);
      NotBefore(c, t);
      var elm: nat := node;
      if mem[elm].right != 0 {
        elm := mem[elm].right;
        ghost var d, n := In(Right, c, t.at, t.color, t.left), t.right;
        Down(Right, c, t);
        EmptyOrder(t.right);
        Look(d, n);
        KidRoots(d, n);
        while mem[elm].left != 0
          invariant n.Node? && Plug(d, n) == tree && elm == n.at && elm in mem
          invariant mem[elm] == Cell(Root(n.left), Root(n.right), CtxAt(d), n.color)
          invariant (Root(n.left) == 0 <==> n.left.Nil?)
          invariant First(InOrder(n)) == First(InOrder(t.right)) && InOrder(n) != [] && InOrder(t.right) != []
          decreases n
        {
          FirstBelow(n);
          Down(Left, d, n);
          d, n := In(Left, d, n.at, n.color, n.right), n.left;
          elm := mem[elm].left;
          Look(d, n);
          KidRoots(d, n);
        }
        FirstBelow(n);
        FirstAppend(InOrder(t.right), RightOf(c));
        SuccessorAt(LeftOf(c) + InOrder(t.left), node, InOrder(t.right) + RightOf(c));
        return elm;
      }
      EmptyRight(t);
      if mem[elm].parent != 0 && elm == mem[mem[elm].parent].left {
        elm := mem[elm].parent;
      } else {
        ghost var d, n := c, t;
        while mem[elm].parent != 0 && elm == mem[mem[elm].parent].right
          invariant Plug(d, n) == tree && n.Node? && elm == n.at && elm in mem && mem[elm].parent == CtxAt(d)
          invariant (d.Top? <==> CtxAt(d) == 0)
          invariant d.In? ==> d.at in mem && (d.side.Right? <==> mem[d.at].right == elm)
          invariant RightOf(d) == RightOf(c)
          decreases d
        {
          n, d := Make(d.side, n, d.at, d.color, d.other), d.up;
          elm := mem[elm].parent;
          Look(d, n);
        }
        elm := mem[elm].parent;
      }
      SuccessorAt(LeftOf(c) + InOrder(t.left), node, InOrder(t.right) + RightOf(c));
      next := elm;
    }

    /** RB_MINMAX(head, RB_NEGINF). */
    method Min() returns (m: nat)
      requires Valid()
      ensures m == First(InOrder(tree))
    {
      hide Whole, InOrder, Bal, Stored, CtxStored;
      var tmp: nat := root;
      m := 0;
      ghost var c, t := Top, tree;
      RootIs(tree);
      Look(c, t);
      EmptyOrder(tree);
      while tmp != 0
        invariant Plug(c, t) == tree && tmp == Root(t) && (tmp != 0 <==> t.Node?)
        invariant tmp != 0 ==> tmp in mem && mem[tmp].left == Root(t.left)
        invariant if t.Node? then First(InOrder(t)) == First(InOrder(tree)) else m == First(InOrder(tree))
        decreases t
      {
        FirstBelow(t);
        KidRoots(c, t);
        m := tmp;
        c, t := In(Left, c, t.at, t.color, t.right), t.left;
        tmp := mem[tmp].left;
        Look(c, t);
      }
    }

    /** RB_FOREACH: the elements met, in the order they are met. */
    method Foreach() returns (visited: seq<nat>)
      requires Valid()
      ensures visited == InOrder(tree)
    {
      hide Whole, InOrder, Bal;
      ghost var s := InOrder(tree);
      OrderIsAddrs(tree);
      NonzeroOrder(tree);
      DistinctTree(tree);
      NoRepeat(tree);
      visited := [];
      var x := Min();
      while x != 0
        invariant |visited| <= |s| && visited == s[..|visited|] && x == First(s[|visited|..]) && s == InOrder(tree)
        decreases |s| - |visited|
      {
        ghost var k := |visited|;
        assert s[k..][0] == s[k] && x in s;
        assert s == s[..k] + [x] + s[k + 1..];
        SuccessorAt(s[..k], x, s[k + 1..]);
        visited := visited + [x];
        x := Next(x);
      }
      LastMet(s, |visited|);
    }

    lemma NonzeroOrder(t: Tree)
      requires Holds(t)
      ensures forall a | a in InOrder(t) :: a != 0
    {
      StoredNonzero(mem, t, 0);
    }
  }

  lemma {:induction false} StoredNonzero(m: Mem, t: Tree, parent: nat)
    requires Stored(m, t, parent)
    ensures forall a | a in InOrder(t) :: a != 0
  {
    if t.Node? {
      StoredNonzero(m, t.left, t.at);
      StoredNonzero(m, t.right, t.at);
    }
  }

  lemma EmptyOrder(t: Tree)
    ensures t.Nil? <==> InOrder(t) == []
  {
  }

  lemma FirstAppend(a: seq<nat>, b: seq<nat>)
    ensures First(a + b) == if a == [] then First(b) else First(a)
  {
  }

  lemma FirstBelow(t: Tree)
    requires t.Node?
    ensures InOrder(t) != [] && First(InOrder(t)) == if t.left.Node? then First(InOrder(t.left)) else t.at
    ensures t.left.Node? ==> InOrder(t.left) != []
  {
  }

  lemma EmptyRight(t: Tree)
    requires t.Node? && t.right.Nil?
    ensures InOrder(t.right) == []
  {
  }

  lemma LastMet(s: seq<nat>, k: nat)
    requires k <= |s| && forall a | a in s :: a != 0
    ensures First(s[k..]) == 0 ==> s[..k] == s
  {
    if k < |s| { assert s[k] in s; }
  }

  /** The element after `a`, or 0. */
  ghost function SuccessorIn(s: seq<nat>, a: nat): nat {
    if s == [] then 0 else if s[0] == a then First(s[1..]) else SuccessorIn(s[1..], a)
  }

  lemma {:induction false} SuccessorAt(x: seq<nat>, a: nat, y: seq<nat>)
    requires a !in x
    ensures SuccessorIn(x + [a] + y, a) == First(y)
  {
    if x == [] {
      assert (x + [a] + y)[1..] == y;
    } else {
      assert (x + [a] + y)[1..] == x[1..] + [a] + y;
      SuccessorAt(x[1..], a, y);
    }
  }

  lemma {:induction false} NoRepeat(t: Tree)
    requires Distinct(t)
    ensures forall i, j | 0 <= i < j < |InOrder(t)| :: InOrder(t)[i] != InOrder(t)[j]
  {
    if t.Node? {
      NoRepeat(t.left);
      NoRepeat(t.right);
      OrderIsAddrs(t.left);
      OrderIsAddrs(t.right);
      var l, r, s := InOrder(t.left), InOrder(t.right), InOrder(t);
      hide InOrder, Distinct;
      forall i, j | 0 <= i < j < |s| ensures s[i] != s[j] {
        assert i < |l| ==> s[i] == l[i] && s[i] in l;
        assert i > |l| ==> s[i] == r[i - |l| - 1];
        assert j < |l| ==> s[j] == l[j];
        assert j > |l| ==> s[j] == r[j - |l| - 1] && s[j] in r;
      }
    }
  }

  lemma BetweenTop(elm: nat, cmp: (nat, nat) -> int)
    ensures Between(Top, elm, cmp)
  {
  }

  lemma NodeInOrder(c: Ctx, t: Tree)
    requires t.Node?
    ensures t.at in InOrder(Plug(c, t))
  {
    InOrderPlug(c, t);
    assert InOrder(t)[|InOrder(t.left)|] == t.at;
    assert InOrder(Plug(c, t))[|LeftOf(c)| + |InOrder(t.left)|] == t.at;
  }

  lemma TwoChanged(m: Mem, m': Mem, a: nat, b: nat, s: set<nat>)
    requires a !in s && a in m' && forall k | k in m && k != a && k != b :: k in m' && m'[k] == m[k]
    ensures SameOn(m, m', s - {b}) && (b !in m ==> SameOn(m, m', s))
  {
  }

  /** The new leaf is red below a balanced context. */
  lemma FreshLeaf(c: Ctx, t: Tree, elm: nat)
    requires t == Plug(c, Nil) && Bal(t) && !IsRed(t)
    ensures RedAt(c, Node(Nil, elm, Red, Nil))
  {
    BalPlug(c, Nil);
    if c.In? { RootOfPlug(c, Nil); }
  }

  lemma PlacedHere(c: Ctx, elm: nat, cmp: (nat, nat) -> int)
    requires Total(cmp) && SortedBy(InOrder(Plug(c, Nil)), cmp) && Between(c, elm, cmp)
    ensures var s, s' := InOrder(Plug(c, Nil)), InOrder(Plug(c, Node(Nil, elm, Red, Nil)));
            && SortedBy(s', cmp) && (forall a | a in s :: cmp(elm, a) != 0)
            && exists i :: 0 <= i <= |s| && s' == s[..i] + [elm] + s[i..]
  {
    InOrderPlug(c, Nil);
    InOrderPlug(c, Node(Nil, elm, Red, Nil));
    var x, y := LeftOf(c), RightOf(c);
    var s := x + y;
    assert InOrder(Plug(c, Nil)) == s;
    assert InOrder(Plug(c, Node(Nil, elm, Red, Nil))) == x + [elm] + y;
    PlacedSorted(x, elm, y, cmp);
    assert s[..|x|] == x && s[|x|..] == y;
  }

  lemma SpliceOrder(c: Ctx, t: Tree, x: Tree)
    requires t.Node? && ((t.left.Nil? && x == t.right) || (t.right.Nil? && x == t.left))
    ensures InOrder(Plug(c, x)) == (LeftOf(c) + InOrder(t.left)) + (InOrder(t.right) + RightOf(c))
  {
    InOrderPlug(c, x);
  }

  lemma SuccessorParent(c: Ctx, t: Tree)
    requires Distinct(Plug(c, t)) && t.Node? && t.right.Node?
    ensures CtxAt(MinCtx(In(Right, c, t.at, t.color, t.left), t.right)) == t.at <==> t.right.left.Nil?
  {
    PlugDistinct(c, t);
    var base := In(Right, c, t.at, t.color, t.left);
    MinCtxAt(base, base, t.right);
  }

  lemma SuccessorOrder(c: Ctx, t: Tree)
    requires t.Node? && t.right.Node?
    ensures var n := MinNode(t.right);
            InOrder(Plug(c, Node(t.left, n.at, t.color, MinReplaced(t.right, n.right)))) ==
            (LeftOf(c) + InOrder(t.left)) + (InOrder(t.right) + RightOf(c))
  {
    var n := MinNode(t.right);
    MinPlug(Top, t.right, n);
    InOrderPlug(c, Node(t.left, n.at, t.color, MinReplaced(t.right, n.right)));
  }

  lemma SameElsewhere(m: Mem, m': Mem, a: nat, above: set<nat>)
    requires m' == m || (a in m && m'.Keys == m.Keys + {a} && forall k | k in m && k != a :: m'[k] == m[k])
    requires a !in above || m' == m
    ensures SameOn(m, m', above)
  {
  }

  lemma SpliceStart(m: Mem, t: Tree, x: Tree, parent: nat)
    requires Stored(m, t, parent) && Distinct(t) && t.Node?
    requires (t.left.Nil? && x == t.right) || (t.right.Nil? && x == t.left)
    ensures t.at in m && m[t.at].parent == parent && t.at != 0 && Stored(m, x, t.at) && Distinct(x)
    ensures t.at !in Addrs(x) && Addrs(x) <= Addrs(t) && (Root(x) != 0 <==> x.Node?)
    ensures (x.Node? ==> x.at in m && x.at in Addrs(x))
  {
  }

  lemma SpliceDone(m: Mem, m1: Mem, m': Mem, root: nat, root': nat, c: Ctx, t: Tree, x: Tree)
    requires Whole(m, root, Plug(c, t)) && t.Node?
    requires (t.left.Nil? && x == t.right) || (t.right.Nil? && x == t.left)
    requires x.Node? ==> x.at in m && m1 == m[x.at := m[x.at].(parent := CtxAt(c))]
    requires x.Nil? ==> m1 == m
    requires Hooked(m1, m', c, Root(x)) && root' == if c.Top? then Root(x) else root
    ensures Whole(m', root', Plug(c, x)) && m'.Keys == m.Keys && t.at in m && m'[t.at] == m[t.at]
    ensures t.at !in Addrs(Plug(c, x))
  {
    hide Whole, InOrder, Plug, CtxStored, CtxDistinct, CtxAddrs, Addrs, Stored, Distinct;
    PartsAreWhole(m, root, c, t);
    CtxApart(c, t);
    SpliceStart(m, t, x, CtxAt(c));
    Kept(m1, m', CtxAt(c), Addrs(t), CtxAddrs(c));
    StoredReparent(m, m', x, t.at, CtxAt(c));
    Replaced(m, m', root, root', c, t, x);
    AddrsPlug(c, x);
  }

  /** What the transplant finds. */
  lemma TransplantStart(m: Mem, root: nat, c: Ctx, l: Tree, was: nat, color: Color, r: Tree, elm: nat)
    requires Whole(m, root, Plug(c, Node(l, was, color, r))) && elm !in Addrs(Plug(c, Node(l, was, color, r)))
    ensures CtxStored(m, c, was) && CtxDistinct(c) && was != 0 && was !in CtxAddrs(c) && elm !in CtxAddrs(c)
    ensures elm != was
    ensures was in m && m[was] == Cell(Root(l), Root(r), CtxAt(c), color)
    ensures Stored(m, l, was) && Stored(m, r, was) && Distinct(l) && Distinct(r) && Addrs(l) !! Addrs(r)
    ensures elm !in Addrs(l) && elm !in Addrs(r) && was !in Addrs(l) && was !in Addrs(r)
    ensures Addrs(l) !! CtxAddrs(c) && Addrs(r) !! CtxAddrs(c) && (c.In? ==> c.at in CtxAddrs(c))
    ensures (l.Node? ==> l.at in Addrs(l) && l.at in m) && (r.Node? ==> r.at in Addrs(r) && r.at in m && r.at != 0)
    ensures (Root(r) != 0 ==> r.Node?)
  {
    var t := Node(l, was, color, r);
    PartsAreWhole(m, root, c, t);
    AddrsPlug(c, t);
    CtxApart(c, t);
    assert Stored(m, t, CtxAt(c)) && Distinct(t);
  }

  lemma TransplantHooked(m: Mem, m1: Mem, m2: Mem, root: nat, c: Ctx, l: Tree, was: nat, color: Color, r: Tree,
                         elm: nat)
    requires CtxDistinct(c) && was !in CtxAddrs(c) && elm !in CtxAddrs(c) && elm != was && was in m && elm in m
    requires m[was] == Cell(Root(l), Root(r), CtxAt(c), color) && m1 == m[elm := m[was]] && Hooked(m1, m2, c, elm)
    requires Addrs(l) !! CtxAddrs(c) && Addrs(r) !! CtxAddrs(c) && (c.In? ==> c.at in CtxAddrs(c))
    requires l.Node? && l.at in Addrs(l) && l.at in m && (r.Node? ==> r.at in Addrs(r) && r.at in m)
    requires elm !in Addrs(l) && elm !in Addrs(r) && was !in Addrs(l) && was !in Addrs(r)
    ensures was in m2 && m2[was] == m[was] && elm in m2 && m2[elm] == m[was]
    ensures l.at in m2 && m2[l.at] == m[l.at] && (r.Node? ==> r.at in m2 && m2[r.at] == m[r.at])
    ensures SameOn(m, m2, Addrs(l)) && SameOn(m, m2, Addrs(r)) && (c.In? ==> SameOn(m, m2, CtxAddrs(c) - {c.at}))
  {
    hide CtxDistinct, CtxAddrs, Addrs;
    var below := Addrs(l) + Addrs(r) + {was, elm};
    Kept(m1, m2, CtxAt(c), below, CtxAddrs(c));
  }

  lemma TransplantDone(m: Mem, m1: Mem, m2: Mem, m': Mem, root: nat, root': nat,
                       c: Ctx, l: Tree, was: nat, color: Color, r: Tree, elm: nat)
    requires Whole(m, root, Plug(c, Node(l, was, color, r))) && elm !in Addrs(Plug(c, Node(l, was, color, r)))
    requires elm != 0 && elm in m && was in m && m1 == m[elm := m[was]] && Hooked(m1, m2, c, elm) && l.Node?
    requires root' == if c.Top? then elm else root
    requires l.at in m2 && (r.Node? ==> r.at in m2)
    requires var x := m2[l.at := m2[l.at].(parent := elm)];
             m' == if r.Node? then x[r.at := x[r.at].(parent := elm)] else x
    ensures Whole(m', root', Plug(c, Node(l, elm, color, r))) && m'.Keys == m.Keys
  {
    hide Whole, InOrder, Plug, CtxStored, CtxDistinct, CtxAddrs, Addrs, Stored, Distinct;
    TransplantStart(m, root, c, l, was, color, r, elm);
    TransplantHooked(m, m1, m2, root, c, l, was, color, r, elm);
    StoredReparent(m, m', l, was, elm);
    StoredReparent(m, m', r, was, elm);
    NodeParts(m', l, elm, color, r, CtxAt(c));
    PartsAreWhole(m, root, c, Node(l, was, color, r));
    assert Addrs(Node(l, elm, color, r)) !! CtxAddrs(c);
    Replaced(m, m', root, root', c, Node(l, was, color, r), Node(l, elm, color, r));
  }

  lemma NodeParts(m: Mem, l: Tree, a: nat, color: Color, r: Tree, parent: nat)
    requires a != 0 && a in m && m[a] == Cell(Root(l), Root(r), parent, color) && Stored(m, l, a) && Stored(m, r, a)
    requires a !in Addrs(l) && a !in Addrs(r) && Addrs(l) !! Addrs(r) && Distinct(l) && Distinct(r)
    ensures Stored(m, Node(l, a, color, r), parent) && Distinct(Node(l, a, color, r))
    ensures Addrs(Node(l, a, color, r)) == Addrs(l) + {a} + Addrs(r)
  {
  }

  lemma {:induction false} RootAbove(m: Mem, c: Ctx, hole: nat)
    requires CtxStored(m, c, hole) && c.In?
    ensures CtxRoot(c, hole) in CtxAddrs(c) && CtxRoot(c, hole) != 0
  {
    if c.up.In? { RootAbove(m, c.up, c.at); }
  }

  lemma TurnedKids(s: Side, n: Tree, sib: nat, far: Tree)
    requires n.Node?
    ensures var y := Make(s, n, sib, Red, far);
            && Kid(y, s) == n
            && Rotated(Other(s), y) == Make(s, Kid(n, s), n.at, n.color, Make(s, Kid(n, Other(s)), sib, Red, far))
  {
  }

  lemma WholeDeficit(t: Tree)
    requires Bal(t) && t.Node?
    ensures Deficit(Top, t)
  {
  }

  lemma {:induction false} NodeAbove(c: Ctx, t: Tree)
    requires t.Node?
    ensures Plug(c, t).Node?
  {
    if c.In? { NodeAbove(c.up, Make(c.side, t, c.at, c.color, c.other)); }
  }

  lemma OtherTwice(s: Side, t: Tree)
    requires t.Node?
    ensures Other(Other(s)) == s
  {
  }

  /** The rotation of the grandparent brings the parent up. */
  lemma RotatedBack(s: Side, t: Tree, p: nat, sib: Tree, g: nat, u: Tree)
    ensures var z := Make(s, Make(s, t, p, Black, sib), g, Red, u);
            Rotated(Other(s), z) == Make(s, t, p, Black, Make(s, sib, g, Red, u))
  {
  }

  /** The cells a rotation reads. */
  lemma RotateCells(m: Mem, s: Side, t: Tree, parent: nat)
    requires Stored(m, t, parent) && t.Node? && Kid(t, Other(s)).Node?
    ensures var p := Kid(t, Other(s));
            && t.at != 0 && t.at in m && KidOf(m[t.at], Other(s)) == p.at && m[t.at].parent == parent
            && p.at != 0 && p.at in m && KidOf(m[p.at], s) == Root(Kid(p, s))
            && (Kid(p, s).Node? ==> Kid(p, s).at != 0 && Kid(p, s).at in m)
  {
    var p := Kid(t, Other(s));
    MakeKids(s, t);
    MakeKids(s, p);
    MakeStored(m, s, Kid(t, s), t.at, t.color, p, parent);
    MakeStored(m, s, Kid(p, s), p.at, p.color, Kid(p, Other(s)), t.at);
  }

  lemma CtxApart(c: Ctx, t: Tree)
    requires Addrs(t) !! CtxAddrs(c)
    ensures forall a | a in Addrs(t) :: a !in CtxAddrs(c)
    ensures c.In? ==> c.at in CtxAddrs(c) && c.at !in Addrs(t)
    ensures t.Node? ==> t.at in Addrs(t)
  {
  }

  /** What a rotation finds. */
  lemma RotateStart(m: Mem, root: nat, s: Side, c: Ctx, t: Tree)
    requires Whole(m, root, Plug(c, t)) && t.Node? && Kid(t, Other(s)).Node?
    ensures var p := Kid(t, Other(s));
            var b := Kid(p, s);
            && t.at != 0 && t.at in m && KidOf(m[t.at], Other(s)) == p.at && m[t.at].parent == CtxAt(c)
            && p.at != 0 && p.at in m && KidOf(m[p.at], s) == Root(b) && t.at != p.at
            && Root(b) != p.at && Root(b) != t.at
            && (Root(b) != 0 <==> b.Node?) && (b.Node? ==> b.at in m)
  {
    hide Addrs, Distinct, Stored, CtxAddrs, CtxStored, CtxDistinct, Whole, InOrder, Rotated, Make, Plug;
    PartsAreWhole(m, root, c, t);
    RotateCells(m, s, t, CtxAt(c));
    RotatedDistinct(s, t);
    RootIn(Kid(Kid(t, Other(s)), s));
  }

  /** The cells below the rotated nodes have been written; the context has not. */
  ghost predicate Lowered(m: Mem, m1: Mem, s: Side, c: Ctx, t: Tree)
    requires t.Node? && Kid(t, Other(s)).Node?
  {
    var p := Kid(t, Other(s));
    var b := Kid(p, s);
    && t.at in m && p.at in m && (b.Node? ==> b.at in m)
    && var w := m[t.at := WithKid(m[t.at], Other(s), Root(b))];
       var x := if b.Node? then w[b.at := m[b.at].(parent := t.at)] else w;
       m1 == x[p.at := m[p.at].(parent := CtxAt(c))]
  }

  lemma RotateMiddle(m: Mem, m1: Mem, root: nat, s: Side, c: Ctx, t: Tree)
    requires Whole(m, root, Plug(c, t)) && t.Node? && Kid(t, Other(s)).Node? && Lowered(m, m1, s, c, t)
    ensures CtxStored(m1, c, t.at) && CtxDistinct(c) && t.at !in CtxAddrs(c) && SameOn(m, m1, CtxAddrs(c))
    ensures t.at != 0 && t.at in m1 && m1[t.at].parent == CtxAt(c) && Kid(t, Other(s)).at in m1
  {
    hide Addrs, Distinct, Stored, CtxAddrs, CtxStored, CtxDistinct, Whole, InOrder, Rotated, Make, Plug;
    RotateStart(m, root, s, c, t);
    PartsAreWhole(m, root, c, t);
    RotatedDistinct(s, t);
    RootIn(Kid(Kid(t, Other(s)), s));
    CtxApart(c, t);
    CtxFrame(m, m1, c, t.at);
  }

  /** The parent's pointer, if any, is the only change. */
  ghost predicate Hooked(m1: Mem, m2: Mem, c: Ctx, child: nat) {
    && m2.Keys == m1.Keys && SameOn(m1, m2, m1.Keys - {CtxAt(c)})
    && (c.Top? ==> m2 == m1)
    && (c.In? ==> c.at in m1 && c.at in m2 && m2[c.at] == WithKid(m1[c.at], c.side, child))
  }

  lemma RotateEnd(m: Mem, m1: Mem, m2: Mem, m': Mem, root: nat, root': nat, s: Side, c: Ctx, t: Tree)
    requires Whole(m, root, Plug(c, t)) && t.Node? && Kid(t, Other(s)).Node? && Lowered(m, m1, s, c, t)
    requires var p := Kid(t, Other(s)).at;
             && Hooked(m1, m2, c, p) && p in m2 && t.at in m2
             && var x := m2[p := WithKid(m2[p], s, t.at)];
                m' == x[t.at := x[t.at].(parent := p)]
    ensures RotateWrites(m, m', s, t, CtxAt(c)) && m'.Keys == m.Keys
    ensures c.In? ==> SameOn(m, m', CtxAddrs(c) - {c.at})
    ensures c.In? ==> c.at in m && c.at in m' && m'[c.at] == WithKid(m[c.at], c.side, Kid(t, Other(s)).at)
  {
    hide Addrs, Distinct, Stored, CtxAddrs, CtxStored, CtxDistinct, Whole, InOrder, Rotated, Make, Plug;
    RotateStart(m, root, s, c, t);
    PartsAreWhole(m, root, c, t);
    RotatedDistinct(s, t);
    RootIn(Kid(Kid(t, Other(s)), s));
    CtxApart(c, t);
    RotateMiddle(m, m1, root, s, c, t);
    Kept(m1, m2, CtxAt(c), Addrs(t), CtxAddrs(c));
  }

  /** After the writes the memory represents the rotated tree, in the same order. */
  lemma RotateDone(m: Mem, m': Mem, root: nat, root': nat, s: Side, c: Ctx, t: Tree)
    requires Whole(m, root, Plug(c, t)) && t.Node? && Kid(t, Other(s)).Node?
    requires RotateWrites(m, m', s, t, CtxAt(c))
    requires c.In? ==> SameOn(m, m', CtxAddrs(c) - {c.at})
    requires c.In? ==> c.at in m && c.at in m' && m'[c.at] == WithKid(m[c.at], c.side, Kid(t, Other(s)).at)
    requires root' == if c.Top? then Kid(t, Other(s)).at else root
    ensures Whole(m', root', Plug(c, Rotated(s, t)))
    ensures InOrder(Plug(c, Rotated(s, t))) == InOrder(Plug(c, t))
  {
    hide Addrs, Distinct, Stored, CtxAddrs, CtxStored, CtxDistinct, Whole, InOrder, Rotated, Make, Plug, SameOn,
      RotateWrites;
    PartsAreWhole(m, root, c, t);
    RotatedDistinct(s, t);
    RotatedStored(m, m', s, t, CtxAt(c));
    RotatedOrder(s, t);
    Replaced(m, m', root, root', c, t, Rotated(s, t));
    InOrderPlug(c, t);
    InOrderPlug(c, Rotated(s, t));
  }

  /** Writing the parent's cell only changes no cell of the subtree and no other cell of the context. */
  lemma Kept(m: Mem, m': Mem, parent: nat, below: set<nat>, above: set<nat>)
    requires SameOn(m, m', m.Keys - {parent}) && (parent !in below || m == m')
    ensures SameOn(m, m', below) && SameOn(m, m', above - {parent})
  {
  }

  /** The sibling is not the node itself. */
  lemma NotOther(c: Ctx, elm: nat)
    requires elm !in CtxAddrs(c) && elm != 0
    ensures c.In? ==> Root(c.other) != elm
  {
  }

  lemma SameKid(m: Mem, c: Ctx, hole: nat)
    requires CtxStored(m, c, hole) && c.In?
    ensures m[c.at] == WithKid(m[c.at], c.side, hole)
  {
  }

  /** The five writes of a rotation. */
  ghost predicate RotateWrites(m: Mem, m': Mem, s: Side, t: Tree, parent: nat)
    requires t.Node? && Kid(t, Other(s)).Node?
  {
    var p := Kid(t, Other(s));
    var b := Kid(p, s);
    && t.at in m && t.at in m' && m'[t.at] == WithKid(m[t.at], Other(s), Root(b)).(parent := p.at)
    && p.at in m && p.at in m' && m'[p.at] == WithKid(m[p.at], s, t.at).(parent := parent)
    && (b.Node? ==> b.at in m && b.at in m' && m'[b.at] == m[b.at].(parent := t.at))
    && SameOn(m, m', Addrs(t) - {t.at, p.at} - RootSet(b))
  }

  lemma RotatedStored(m: Mem, m': Mem, s: Side, t: Tree, parent: nat)
    requires Stored(m, t, parent) && Distinct(t) && t.Node? && Kid(t, Other(s)).Node?
    requires RotateWrites(m, m', s, t, parent)
    ensures Stored(m', Rotated(s, t), parent)
  {
    hide Addrs, Distinct, Stored;
    var a, p := Kid(t, s), Kid(t, Other(s));
    var b, c := Kid(p, s), Kid(p, Other(s));
    MakeKids(s, t);
    MakeKids(s, p);
    RotatedDistinct(s, t);
    RootIn(b);
    MakeStored(m, s, a, t.at, t.color, p, parent);
    MakeStored(m, s, b, p.at, p.color, c, t.at);
    StoredFrame(m, m', a, t.at);
    StoredFrame(m, m', c, p.at);
    StoredReparent(m, m', b, p.at, t.at);
    MakeStored(m', s, a, t.at, t.color, b, p.at);
    MakeStored(m', s, Make(s, a, t.at, t.color, b), p.at, p.color, c, parent);
  }
}
