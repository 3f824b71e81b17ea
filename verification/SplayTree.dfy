/** Splaying, and insertion and removal built on it, as the SPLAY_ macros do them. */
module SplayTree {
  import opened Basics
  import opened SplayModel

  /** Where a search for `elm` ends: at an equal element, or where there is nothing further on its side. */
  predicate Settled(t: Tree, elm: nat, cmp: (nat, nat) -> int) {
    t.Node? && (cmp(elm, t.at) < 0 ==> t.left.Nil?) && (cmp(elm, t.at) > 0 ==> t.right.Nil?)
  }

  /** Everything in the partial trees is on its side of `elm`. */
  ghost predicate Between(l: Spine, r: Spine, elm: nat, cmp: (nat, nat) -> int) {
    (forall a | a in OrderOf(Right, l) :: cmp(a, elm) < 0) && (forall a | a in OrderOf(Left, r) :: cmp(elm, a) < 0)
  }

  /** `elm` divides the tree at its root: the root is equal to it, or next to where it would be. */
  ghost predicate Divided(t: Tree, elm: nat, cmp: (nat, nat) -> int) {
    && t.Node?
    && (forall a | a in InOrder(t.left) :: cmp(a, elm) < 0)
    && (forall a | a in InOrder(t.right) :: cmp(elm, a) < 0)
  }

  /** SPLAY_HEAD, with the memory its pointers lead into. */
  class Head {
    var mem: Mem
    var root: nat
    ghost var tree: Tree

    constructor (mem: Mem)
      ensures this.mem == mem && Valid() && tree == Nil
    {
      this.mem := mem;
      root := 0;
      tree := Nil;
    }

    ghost predicate Valid()
      reads this
    {
      Stored(mem, tree) && Distinct(tree) && root == Root(tree)
    }

    /** SPLAY_ROTATE_LEFT and SPLAY_ROTATE_RIGHT. */
    method Rotate(s: Side, tmp: nat, ghost node: nat, ghost l: Spine, ghost r: Spine, ghost t: Tree)
      requires Splaying(mem, root, node, l, r, t) && t.Node? && Kid(t, Other(s)).Node? && tmp == Kid(t, Other(s)).at
      modifies this`mem, this`root
      ensures Splaying(mem, root, node, l, r, Rotated(s, t)) && Whole(l, r, Rotated(s, t)) == Whole(l, r, t)
      ensures root == tmp && mem.Keys == old(mem.Keys)
      ensures Region(node, l, r, Rotated(s, t)) == Region(node, l, r, t) && OnlyIn(old(mem), mem, Region(node, l, r, t))
    {
      hide Addrs, InOrder, SpineStored, SpineDistinct, SpineAddrs, OrderOf, Rotated, Splaying, Whole, Region, OnlyIn;
      RotateFinds(mem, root, node, l, r, s, t);
      mem := mem[root := WithKid(mem[root], Other(s), KidOf(mem[tmp], s))];
      mem := mem[tmp := WithKid(mem[tmp], s, root)];
      RotateKeeps(old(mem), mem, root, node, l, r, s, t);
      root := tmp;
    }

    /** SPLAY_LINKLEFT (side Left) and SPLAY_LINKRIGHT. */
    method LinkTo(s: Side, tmp: nat, ghost node: nat, ghost l: Spine, ghost r: Spine, ghost t: Tree)
      returns (last: nat, ghost l': Spine, ghost r': Spine)
      requires Splaying(mem, root, node, l, r, t) && t.Node? && tmp == Bottom(node, Side0(s, l, r))
      modifies this`mem, this`root
      ensures var c := Link(Side0(s, l, r), t.at, Kid(t, Other(s)));
              l' == (if s.Right? then c else l) && r' == (if s.Right? then r else c)
      ensures Splaying(mem, root, node, l', r', Kid(t, s)) && Whole(l', r', Kid(t, s)) == Whole(l, r, t)
      ensures last == t.at && mem.Keys == old(mem.Keys)
      ensures Region(node, l', r', Kid(t, s)) == Region(node, l, r, t) && OnlyIn(old(mem), mem, Region(node, l, r, t))
    {
      hide Addrs, InOrder, SpineStored, SpineDistinct, SpineAddrs, OrderOf, Whole, Splaying, Region, OnlyIn;
      SplayFinds(mem, root, node, l, r, t);
      mem := mem[tmp := WithKid(mem[tmp], s, root)];
      last := root;
      LinkKeeps(old(mem), mem, root, node, l, r, s, t);
      root := KidOf(mem[root], s);
      ghost var c := Link(Side0(s, l, r), t.at, Kid(t, Other(s)));
      l', r' := if s.Right? then c else l, if s.Right? then r else c;
    }

    /** SPLAY_ASSEMBLE. */
    method Assemble(node: nat, left: nat, right: nat, ghost l: Spine, ghost r: Spine, ghost t: Tree)
      requires Splaying(mem, root, node, l, r, t) && t.Node? && left == Bottom(node, l) && right == Bottom(node, r)
      modifies this`mem, this`tree
      ensures Valid() && tree == Result(l, r, t) && node !in Addrs(tree) && InOrder(tree) == Whole(l, r, t)
      ensures mem.Keys == old(mem.Keys)
      ensures Addrs(tree) + {node} == Region(node, l, r, t) && OnlyIn(old(mem), mem, Region(node, l, r, t))
    {
      hide Addrs, InOrder, SpineStored, SpineDistinct, SpineAddrs, OrderOf, Whole, Splaying, Stored, Distinct, Region,
        OnlyIn;
      SplayFinds(mem, root, node, l, r, t);
      AssembleIs(mem, root, node, l, r, t);
      mem := mem[left := mem[left].(right := mem[root].left)];
      mem := mem[right := mem[right].(left := mem[root].right)];
      mem := mem[root := mem[root].(left := mem[node].right)];
      mem := mem[root := mem[root].(right := mem[node].left)];
      tree := Result(l, r, t);
    }

    /** SPLAY; `node` is the address of the dummy on the stack. */
    method Splay(elm: nat, node: nat, cmp: (nat, nat) -> int)
      requires Valid() && tree.Node? && node != 0 && node !in Addrs(tree)
      requires Preorder(cmp) && SortedBy(InOrder(tree), cmp)
      modifies this
      ensures Valid() && InOrder(tree) == old(InOrder(tree)) && Divided(tree, elm, cmp) && node !in Addrs(tree)
      ensures mem.Keys == old(mem.Keys) + {node}
      ensures Addrs(tree) == old(Addrs(tree)) && OnlyIn(old(mem), mem, Addrs(tree) + {node})
    {
      hide Addrs, InOrder, SpineStored, SpineDistinct, SpineAddrs, OrderOf, Whole, Splaying, Stored, Distinct, Region,
        OnlyIn;
      hide Preorder, Total, SortedBy, Between, Divided;
      PreorderIsTotal(cmp);
      mem := mem[node := Cell(0, 0)];
      var left, right := node, node;
      ghost var l, r, t := End, End, tree;
      SplayStart(old(mem), mem, root, node, t, elm, cmp);
      SplayFinds(mem, root, node, l, r, t);
      StartRegion(old(mem), mem, node, tree);
      var comp := cmp(elm, root);
      while comp != 0
        invariant Splaying(mem, root, node, l, r, t) && t.Node? && root == t.at && root in mem
        invariant mem[root] == Cell(Root(t.left), Root(t.right))
        invariant (Root(t.left) == 0 <==> t.left.Nil?) && (Root(t.right) == 0 <==> t.right.Nil?)
        invariant Whole(l, r, t) == old(InOrder(tree)) && Between(l, r, elm, cmp) && comp == cmp(elm, root)
        invariant Region(node, l, r, t) == old(Addrs(tree)) + {node} && OnlyIn(old(mem), mem, Region(node, l, r, t))
        invariant left == Bottom(node, l) && right == Bottom(node, r) && mem.Keys == old(mem.Keys) + {node}
        decreases |InOrder(t)|
      {
        var s := if comp < 0 then Left else Right;
        var tmp := KidOf(mem[root], s);
        if tmp == 0 {
          break;
        }
        Sizes(s, t);
        ghost var m0 := mem;
        var c2 := cmp(elm, tmp);
        if (comp < 0 && c2 < 0) || (comp > 0 && c2 > 0) {
          Rotate(Other(s), tmp, node, l, r, t);
          OnlyInTwice(old(mem), m0, mem, Region(node, l, r, t));
          t := Rotated(Other(s), t);
          SplayFinds(mem, root, node, l, r, t);
          if KidOf(mem[root], s) == 0 {
            break;
          }
          Sizes(s, t);
        }
        ghost var l', r';
        ghost var m1 := mem;
        BetweenLink(l, r, t, s, elm, cmp);
        if comp < 0 {
          right, l', r' := LinkTo(Left, right, node, l, r, t);
        } else {
          left, l', r' := LinkTo(Right, left, node, l, r, t);
        }
        OnlyInTwice(old(mem), m1, mem, Region(node, l, r, t));
        l, r, t := l', r', Kid(t, s);
        SplayFinds(mem, root, node, l, r, t);
        comp := cmp(elm, root);
      }
      assert Settled(t, elm, cmp);
      ghost var m2 := mem;
      Assemble(node, left, right, l, r, t);
      OnlyInTwice(old(mem), m2, mem, Region(node, l, r, t));
      SameAddrs(old(tree), tree, node);
      DividedAt(l, r, t, elm, cmp);
    }

    /** SPLAY_FIND. */
    method Find(elm: nat, node: nat, cmp: (nat, nat) -> int) returns (found: nat)
      requires Valid() && node != 0 && node !in Addrs(tree) && Preorder(cmp) && SortedBy(InOrder(tree), cmp)
      modifies this
      ensures Valid() && InOrder(tree) == old(InOrder(tree))
      ensures found != 0 ==> found == root && found in InOrder(tree) && cmp(elm, found) == 0
      ensures found == 0 ==> forall a | a in InOrder(tree) :: cmp(elm, a) != 0
    {
      hide Addrs, Stored, Distinct, SortedBy;
      EmptyTree(mem, root, tree);
      if root == 0 {
        return 0;
      }
      Splay(elm, node, cmp);
      EmptyTree(mem, root, tree);
      OthersDiffer(tree, elm, cmp);
      found := if cmp(elm, root) == 0 then root else 0;
    }

    /** SPLAY_INSERT. */
    method Insert(elm: nat, node: nat, cmp: (nat, nat) -> int) returns (found: nat)
      requires Valid() && node != 0 && node !in Addrs(tree) && elm != 0 && elm !in Addrs(tree) && elm != node
      requires Preorder(cmp) && SortedBy(InOrder(tree), cmp)
      modifies this
      ensures Valid() && SortedBy(InOrder(tree), cmp)
      ensures found != 0 ==> found == root && found in InOrder(tree) && cmp(elm, found) == 0
      ensures found != 0 ==> InOrder(tree) == old(InOrder(tree))
      ensures found == 0 ==> root == elm
      ensures found == 0 ==>
                && (forall a | a in old(InOrder(tree)) :: cmp(elm, a) != 0)
                && exists i :: 0 <= i <= |old(InOrder(tree))| &&
                     InOrder(tree) == old(InOrder(tree))[..i] + [elm] + old(InOrder(tree))[i..]
    {
      hide Addrs, Stored, Distinct, SortedBy, InOrder, Divided, Preorder;
      EmptyTree(mem, root, tree);
      if root == 0 {
        mem := mem[elm := Cell(0, 0)];
        OneNode(mem, elm, cmp);
        tree := Node(Nil, elm, Nil);
      } else {
        Splay(elm, node, cmp);
        EmptyTree(mem, root, tree);
        OthersDiffer(tree, elm, cmp);
        var comp := cmp(elm, root);
        ghost var t, m0 := tree, mem;
        SplitOrder(t, elm, cmp);
        if comp < 0 {
          mem := mem[elm := Cell(mem[root].left, root)];
          mem := mem[root := mem[root].(left := 0)];
          SplitStored(m0, mem, Left, t, elm);
        } else if comp > 0 {
          mem := mem[elm := Cell(root, mem[root].right)];
          mem := mem[root := mem[root].(right := 0)];
          SplitStored(m0, mem, Right, t, elm);
        } else {
          return root;
        }
        tree := SplitBy(if comp < 0 then Left else Right, t, elm);
      }
      root := elm;
      found := 0;
    }

    /** SPLAY_REMOVE. */
    method Remove(elm: nat, node: nat, cmp: (nat, nat) -> int) returns (removed: nat)
      requires Valid() && node != 0 && node !in Addrs(tree) && elm != 0
      requires Preorder(cmp) && SortedBy(InOrder(tree), cmp)
      modifies this
      ensures Valid() && removed in {0, elm} && SortedBy(InOrder(tree), cmp)
      ensures removed != 0 ==>
                exists a :: a in old(InOrder(tree)) && cmp(elm, a) == 0 &&
                            InOrder(tree) == Without(old(InOrder(tree)), a)
      ensures removed == 0 ==> InOrder(tree) == old(InOrder(tree)) && forall a | a in InOrder(tree) :: cmp(elm, a) != 0
    {
      hide Addrs, Stored, Distinct, SortedBy, InOrder, Divided, Preorder, OnlyIn;
      EmptyTree(mem, root, tree);
      if root == 0 {
        return 0;
      }
      Splay(elm, node, cmp);
      EmptyTree(mem, root, tree);
      OthersDiffer(tree, elm, cmp);
      if cmp(elm, root) == 0 {
        ghost var l, x, r := tree.left, root, tree.right;
        RemovedOrder(tree, elm, cmp);
        TreeParts(mem, tree);
        if mem[root].left == 0 {
          root := mem[root].right;
          tree := r;
        } else {
          var tmp := mem[root].right;
          root := mem[root].left;
          ghost var m0 := mem;
          tree := l;
          Splay(elm, node, cmp);
          EmptyTree(mem, root, tree);
          LastIsRoot(tree, l, elm, cmp);
          RightKept(m0, mem, l, r, node);
          ghost var m1 := mem;
          mem := mem[root := mem[root].(right := tmp)];
          JoinStored(m1, mem, tree, r);
          tree := Node(tree.left, root, r);
        }
        removed := elm;
      } else {
        removed := 0;
      }
    }
  }

  lemma EmptyTree(m: Mem, root: nat, t: Tree)
    requires Stored(m, t) && root == Root(t)
    ensures root == 0 <==> t.Nil?
    ensures t.Nil? <==> InOrder(t) == []
    ensures t.Node? ==>
              && root in m && m[root] == Cell(Root(t.left), Root(t.right)) && root in Addrs(t)
              && (Root(t.left) == 0 <==> t.left.Nil?) && (Root(t.right) == 0 <==> t.right.Nil?)
              && InOrder(t) == InOrder(t.left) + [root] + InOrder(t.right)
  {
  }

  /** Only the root can be equal to the key. */
  lemma OthersDiffer(t: Tree, elm: nat, cmp: (nat, nat) -> int)
    requires Divided(t, elm, cmp) && Preorder(cmp)
    ensures t.at in InOrder(t) && forall a | a in InOrder(t) && cmp(elm, a) == 0 :: a == t.at
  {
  }

  lemma OneNode(m: Mem, elm: nat, cmp: (nat, nat) -> int)
    requires elm != 0 && elm in m && m[elm] == Cell(0, 0)
    ensures var t := Node(Nil, elm, Nil);
            && Stored(m, t) && Distinct(t) && SortedBy(InOrder(t), cmp)
            && InOrder(t) == [elm] && InOrder(t) == [][..0] + [elm] + [][0..]
  {
  }

  /** The tree with a new root above the side of the old root where it belongs. */
  function SplitBy(s: Side, t: Tree, elm: nat): Tree
    requires t.Node?
  {
    Make(s, Kid(t, s), elm, Make(s, Nil, t.at, Kid(t, Other(s))))
  }

  lemma SplitStored(m: Mem, m': Mem, s: Side, t: Tree, elm: nat)
    requires Stored(m, t) && Distinct(t) && t.Node? && elm != 0 && elm !in Addrs(t) && t.at in m
    requires var cell := if s.Left? then Cell(m[t.at].left, t.at) else Cell(t.at, m[t.at].right);
             m' == m[elm := cell][t.at := WithKid(m[t.at], s, 0)]
    ensures Stored(m', SplitBy(s, t, elm)) && Distinct(SplitBy(s, t, elm)) && Root(SplitBy(s, t, elm)) == elm
  {
    hide Stored, Distinct, Addrs;
    KidParts(m, s, t);
    StoredFrame(m, m', Kid(t, s));
    StoredFrame(m, m', Kid(t, Other(s)));
    NilParts(m');
    MakeParts(m', s, Nil, t.at, Kid(t, Other(s)));
    MakeParts(m', s, Kid(t, s), elm, Make(s, Nil, t.at, Kid(t, Other(s))));
  }

  lemma NilParts(m: Mem)
    ensures Stored(m, Nil) && Distinct(Nil) && Addrs(Nil) == {}
  {
  }

  /** Splitting at the root puts the new element where it belongs. */
  lemma SplitOrder(t: Tree, elm: nat, cmp: (nat, nat) -> int)
    requires Divided(t, elm, cmp) && Preorder(cmp) && SortedBy(InOrder(t), cmp)
    ensures cmp(elm, t.at) != 0 ==>
              var s := InOrder(t);
              var s' := InOrder(SplitBy(if cmp(elm, t.at) < 0 then Left else Right, t, elm));
              && SortedBy(s', cmp) && (forall a | a in s :: cmp(elm, a) != 0)
              && exists i :: 0 <= i <= |s| && s' == s[..i] + [elm] + s[i..]
  {
    hide SortedBy;
    PreorderIsTotal(cmp);
    var l, r, s := InOrder(t.left), InOrder(t.right), InOrder(t);
    if cmp(elm, t.at) < 0 {
      Placed(l, elm, [t.at] + r, s, cmp);
      SplitInOrder(t, elm);
    } else if cmp(elm, t.at) > 0 {
      assert cmp(t.at, elm) < 0;
      Placed(l + [t.at], elm, r, s, cmp);
      SplitInOrder(t, elm);
    }
  }

  lemma SplitInOrder(t: Tree, elm: nat)
    requires t.Node?
    ensures InOrder(SplitBy(Left, t, elm)) == InOrder(t.left) + [elm] + ([t.at] + InOrder(t.right))
    ensures InOrder(SplitBy(Right, t, elm)) == (InOrder(t.left) + [t.at]) + [elm] + InOrder(t.right)
  {
    assert SplitBy(Left, t, elm) == Node(t.left, elm, Node(Nil, t.at, t.right));
    assert InOrder(Node(Nil, t.at, t.right)) == [t.at] + InOrder(t.right);
    assert SplitBy(Right, t, elm) == Node(Node(t.left, t.at, Nil), elm, t.right);
    assert InOrder(Node(t.left, t.at, Nil)) == InOrder(t.left) + [t.at];
  }

  lemma Placed(x: seq<nat>, elm: nat, y: seq<nat>, s: seq<nat>, cmp: (nat, nat) -> int)
    requires s == x + y && Total(cmp) && SortedBy(s, cmp)
    requires (forall a | a in x :: cmp(a, elm) < 0) && forall a | a in y :: cmp(elm, a) < 0
    ensures SortedBy(x + [elm] + y, cmp) && forall a | a in s :: cmp(elm, a) != 0
    ensures exists i :: 0 <= i <= |s| && x + [elm] + y == s[..i] + [elm] + s[i..]
  {
    PlacedSorted(x, elm, y, cmp);
    assert s[..|x|] == x && s[|x|..] == y;
  }

  /** What is left after the root is taken out. */
  lemma RemovedOrder(t: Tree, elm: nat, cmp: (nat, nat) -> int)
    requires Divided(t, elm, cmp) && Preorder(cmp) && SortedBy(InOrder(t), cmp) && cmp(elm, t.at) == 0
    ensures t.at in InOrder(t) && Without(InOrder(t), t.at) == InOrder(t.left) + InOrder(t.right)
    ensures SortedBy(InOrder(t.left) + InOrder(t.right), cmp) && SortedBy(InOrder(t.left), cmp)
    ensures forall a | a in InOrder(t.left) :: cmp(a, elm) < 0
    ensures t.left.Nil? ==> InOrder(t.left) + InOrder(t.right) == InOrder(t.right)
  {
    OthersDiffer(t, elm, cmp);
    var l, r := InOrder(t.left), InOrder(t.right);
    assert cmp(t.at, elm) >= 0;
    WithoutAt(l, t.at, r);
    WithoutSorted(InOrder(t), t.at, cmp);
    assert forall i | 0 <= i < |l| :: l[i] == InOrder(t)[i];
  }

  lemma TreeParts(m: Mem, t: Tree)
    requires Stored(m, t) && Distinct(t) && t.Node?
    ensures Stored(m, t.left) && Stored(m, t.right) && Distinct(t.left) && Distinct(t.right)
    ensures Addrs(t.left) !! Addrs(t.right) && Addrs(t.left) <= Addrs(t) && t.at !in Addrs(t.left)
    ensures t.at !in Addrs(t.right)
    ensures Addrs(t.right) <= Addrs(t)
  {
  }

  /** After everything in the tree was found smaller, nothing is to the right of the root. */
  lemma LastIsRoot(t: Tree, l: Tree, elm: nat, cmp: (nat, nat) -> int)
    requires Divided(t, elm, cmp) && Preorder(cmp) && InOrder(t) == InOrder(l)
    requires forall a | a in InOrder(l) :: cmp(a, elm) < 0
    ensures t.right.Nil? && InOrder(t) == InOrder(t.left) + [t.at]
  {
    RootListed(t.right);
    assert forall a | a in InOrder(t.right) :: a in InOrder(t);
  }

  lemma RootListed(t: Tree)
    ensures t.Node? ==> t.at in InOrder(t)
  {
  }

  lemma RightKept(m: Mem, m': Mem, l: Tree, r: Tree, node: nat)
    requires Stored(m, r) && OnlyIn(m, m', Addrs(l) + {node}) && Addrs(l) !! Addrs(r) && node !in Addrs(r)
    ensures Stored(m', r)
  {
  }

  lemma JoinStored(m: Mem, m': Mem, t: Tree, r: Tree)
    requires Stored(m, t) && Distinct(t) && t.Node? && t.right.Nil? && Stored(m, r) && Distinct(r)
    requires Addrs(t) !! Addrs(r)
    requires t.at in m && m' == m[t.at := m[t.at].(right := Root(r))]
    ensures Stored(m', Node(t.left, t.at, r)) && Distinct(Node(t.left, t.at, r))
    ensures InOrder(Node(t.left, t.at, r)) == InOrder(t.left) + [t.at] + InOrder(r)
  {
    hide Stored, Distinct, Addrs;
    KidParts(m, Left, t);
    StoredFrame(m, m', t.left);
    StoredFrame(m, m', r);
    MakeParts(m', Left, t.left, t.at, r);
  }

  /** What is found at the root and at the dummy. */
  lemma SplayFinds(m: Mem, root: nat, node: nat, l: Spine, r: Spine, t: Tree)
    requires Splaying(m, root, node, l, r, t)
    ensures node in m && Bottom(node, l) in m && Bottom(node, r) in m
    ensures t.Node? ==>
              && root == t.at && root != 0 && root in m && m[root] == Cell(Root(t.left), Root(t.right))
              && (Root(t.left) == 0 <==> t.left.Nil?) && (Root(t.right) == 0 <==> t.right.Nil?)
    ensures root == 0 <==> t.Nil?
  {
    SpineIn(m, Right, node, l);
    SpineIn(m, Left, node, r);
    hide Addrs, SpineStored, SpineAddrs, SpineDistinct;
    if t.Node? { assert Stored(m, t.left) && Stored(m, t.right); }
  }

  lemma RotateFinds(m: Mem, root: nat, node: nat, l: Spine, r: Spine, s: Side, t: Tree)
    requires Splaying(m, root, node, l, r, t) && t.Node? && Kid(t, Other(s)).Node?
    ensures var p := Kid(t, Other(s)).at; root == t.at && root in m && p in m && p != t.at
  {
    hide Addrs, SpineStored, SpineAddrs, SpineDistinct, Stored, Distinct;
    KidParts(m, s, t);
    KidParts(m, s, Kid(t, Other(s)));
  }

  lemma SplayStart(m: Mem, m': Mem, root: nat, node: nat, t: Tree, elm: nat, cmp: (nat, nat) -> int)
    requires Stored(m, t) && Distinct(t) && root == Root(t) && node != 0 && node !in Addrs(t)
    requires m' == m[node := Cell(0, 0)]
    ensures Splaying(m', root, node, End, End, t) && Whole(End, End, t) == InOrder(t) && Between(End, End, elm, cmp)
  {
    hide Stored, Distinct, Addrs, InOrder;
    StoredFrame(m, m', t);
  }

  lemma StartRegion(m: Mem, m': Mem, node: nat, t: Tree)
    requires m' == m[node := Cell(0, 0)]
    ensures Region(node, End, End, t) == Addrs(t) + {node} && OnlyIn(m, m', Region(node, End, End, t))
  {
  }

  lemma OnlyInTwice(m: Mem, m': Mem, m'': Mem, s: set<nat>)
    requires OnlyIn(m, m', s) && OnlyIn(m', m'', s)
    ensures OnlyIn(m, m'', s)
  {
  }

  lemma SameAddrs(t: Tree, t': Tree, node: nat)
    requires Addrs(t) + {node} == Addrs(t') + {node} && node !in Addrs(t) && node !in Addrs(t')
    ensures Addrs(t) == Addrs(t')
  {
  }

  /** The zig-zig rotation brings the child up, and the search goes on below it. */
  lemma Sizes(s: Side, t: Tree)
    requires t.Node? && Kid(t, s).Node?
    ensures Other(Other(s)) == s && |InOrder(Kid(t, s))| < |InOrder(t)|
    ensures var u := Rotated(Other(s), t);
            u.Node? && u.at == Kid(t, s).at && Kid(u, s) == Kid(Kid(t, s), s) && |InOrder(u)| == |InOrder(t)|
  {
  }

  lemma SortedAround(x: seq<nat>, a: nat, y: seq<nat>, cmp: (nat, nat) -> int)
    requires SortedBy(x + [a] + y, cmp)
    ensures (forall b | b in x :: cmp(b, a) < 0) && forall b | b in y :: cmp(a, b) < 0
  {
    var s := x + [a] + y;
    assert s[|x|] == a;
    forall b | b in x ensures cmp(b, a) < 0 {
      var i :| 0 <= i < |x| && x[i] == b;
      assert s[i] == b;
    }
    forall b | b in y ensures cmp(a, b) < 0 {
      var i :| 0 <= i < |y| && y[i] == b;
      assert s[|x| + 1 + i] == b;
    }
  }

  /** The nodes before and after the root. */
  lemma WholeAround(l: Spine, r: Spine, t: Tree, cmp: (nat, nat) -> int)
    requires t.Node? && SortedBy(Whole(l, r, t), cmp)
    ensures forall b | b in InOrder(t.left) :: cmp(b, t.at) < 0
    ensures forall b | b in InOrder(t.right) :: cmp(t.at, b) < 0
  {
    hide SortedBy;
    var x, y := OrderOf(Right, l) + InOrder(t.left), InOrder(t.right) + OrderOf(Left, r);
    assert Whole(l, r, t) == x + [t.at] + y;
    SortedAround(x, t.at, y, cmp);
  }

  lemma BetweenLink(l: Spine, r: Spine, t: Tree, s: Side, elm: nat, cmp: (nat, nat) -> int)
    requires t.Node? && SortedBy(Whole(l, r, t), cmp) && Total(cmp) && Between(l, r, elm, cmp)
    requires if s.Left? then cmp(elm, t.at) < 0 else cmp(elm, t.at) > 0
    ensures var c := Link(Side0(s, l, r), t.at, Kid(t, Other(s)));
            Between(if s.Right? then c else l, if s.Right? then r else c, elm, cmp)
  {
    hide SortedBy;
    WholeAround(l, r, t, cmp);
    assert s.Right? ==> cmp(t.at, elm) < 0;
  }

  /** A search that is settled divides the assembled tree. */
  lemma DividedAt(l: Spine, r: Spine, t: Tree, elm: nat, cmp: (nat, nat) -> int)
    requires Settled(t, elm, cmp) && SortedBy(Whole(l, r, t), cmp) && Total(cmp) && Between(l, r, elm, cmp)
    ensures Divided(Result(l, r, t), elm, cmp)
  {
    hide SortedBy;
    WholeAround(l, r, t, cmp);
    ResultOrder(l, r, t);
    assert cmp(elm, t.at) >= 0 ==> cmp(t.at, elm) <= 0;
    hide Fill, OrderOf;
    assert cmp(elm, t.at) < 0 ==> InOrder(t.left) == [];
    assert cmp(elm, t.at) > 0 ==> InOrder(t.right) == [];
  }
}
