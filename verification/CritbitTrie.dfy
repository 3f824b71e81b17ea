/**
  The crit-bit trie as a value: its invariant, lookup, insertion and deletion, the finite map it
  stands for, the order of its leaves, and the fact that its shape depends only on the stored map.

  Every leaf and node carries the address it is stored at, so that the same trees describe memory.
 */
module CritbitTrie {
  import opened Basics
  import opened CritbitBits

  type Addr = nat
  type Value = nat  // an opaque pointer, 0 for NULL

  datatype RawCrit = RawCrit(byte: nat, otherbits: Byte)

  /** Where a node tests: a byte index and a mask that leaves out one bit of that byte. */
  type Crit = c: RawCrit | IsMask(c.otherbits) witness RawCrit(0, 0x7F)

  function Pos(c: Crit): nat {
    Position(c.byte, c.otherbits)
  }

  lemma PosInjective(c: Crit, d: Crit)
    requires Pos(c) == Pos(d)
    ensures c == d
  {
  }

  datatype Trie =
    | Leaf(a: Addr, key: Key, value: Value)
    | Node(a: Addr, crit: Crit, left: Trie, right: Trie)

  ghost function Keys(t: Trie): set<Key> {
    match t
    case Leaf(_, k, _) => {k}
    case Node(_, _, l, r) => Keys(l) + Keys(r)
  }

  /** The finite map the trie stands for. */
  ghost function Contents(t: Trie): (m: map<Key, Value>)
    ensures m.Keys == Keys(t)
  {
    match t
    case Leaf(_, k, v) => map[k := v]
    case Node(_, _, l, r) => Contents(l) + Contents(r)
  }

  ghost predicate DeeperThan(t: Trie, pos: nat) {
    t.Node? ==> Pos(t.crit) > pos
  }

  ghost predicate AllBits(t: Trie, pos: nat, b: bool) {
    forall k | k in Keys(t) :: Bit(k, pos) == b
  }

  ghost predicate AllAgree(t: Trie, pos: nat) {
    forall k, l | k in Keys(t) && l in Keys(t) :: Agree(k, l, pos)
  }

  /**
    The tested positions increase strictly along every path; below a node all keys agree on the
    earlier bits and are split by the node's own bit.
   */
  ghost predicate Inv(t: Trie) {
    t.Node? ==>
      && Inv(t.left) && Inv(t.right)
      && DeeperThan(t.left, Pos(t.crit)) && DeeperThan(t.right, Pos(t.crit))
      && AllBits(t.left, Pos(t.crit), false) && AllBits(t.right, Pos(t.crit), true)
      && AllAgree(t, Pos(t.crit))
  }

  function Child(t: Trie, dir: bool): Trie
    requires t.Node?
  {
    if dir then t.right else t.left
  }

  function SetChild(t: Trie, dir: bool, c: Trie): Trie
    requires t.Node?
  {
    if dir then t.(right := c) else t.(left := c)
  }

  /** The leaf a key's own bits lead to. */
  function Nearest(t: Trie, k: Key): (n: Trie)
    ensures n.Leaf?
  {
    if t.Leaf? then t else Nearest(Child(t, Bit(k, Pos(t.crit))), k)
  }

  lemma {:induction false} NearestIsStored(t: Trie, k: Key)
    ensures Nearest(t, k).key in Keys(t)
  {
    if t.Node? { NearestIsStored(Child(t, Bit(k, Pos(t.crit))), k); }
  }

  /** A lookup finds exactly the stored keys, with the value stored under them. */
  lemma {:induction false} LookupIsMapLookup(t: Trie, k: Key)
    requires Inv(t)
    ensures Nearest(t, k).key == k <==> k in Contents(t)
    ensures k in Contents(t) ==> Nearest(t, k).value == Contents(t)[k]
  {
    hide Bit, Position;
    NearestIsStored(t, k);
    if t.Node? {
      LookupIsMapLookup(Child(t, Bit(k, Pos(t.crit))), k);
    }
  }

  /** The node that parts the leaf `near` from a new key. */
  ghost function CritOf(near: Key, k: Key): (c: Crit)
    requires near != k
    ensures Pos(c) == Diff(near, k)
  {
    var j := DiffByte(near, k);
    var r := TopRank(At(near, j) ^ At(k, j));
    MaskOfRank(r);
    var o: Byte :| IsMask(o) && Rank(o) == r;
    RawCrit(j, o)
  }

  lemma MaskOfRank(r: nat)
    requires r < 8
    ensures exists o: Byte :: IsMask(o) && Rank(o) == r
  {
    var o: Byte := 0xFF ^ Weight(r);
    assert IsMask(o) && Rank(o) == r;
  }

  /** Put a new leaf, under a new node that tests `c`, on the path of the new key. */
  function Place(t: Trie, c: Crit, x: Trie, a: Addr): Trie
    requires x.Leaf?
  {
    if t.Leaf? || Pos(t.crit) > Pos(c) then
      if Bit(x.key, Pos(c)) then Node(a, c, t, x) else Node(a, c, x, t)
    else
      var dir := Bit(x.key, Pos(t.crit));
      SetChild(t, dir, Place(Child(t, dir), c, x, a))
  }

  ghost function Insert(t: Option<Trie>, x: Trie, a: Addr): Option<Trie>
    requires x.Leaf?
  {
    match t
    case None => Some(x)
    case Some(u) =>
      var near := Nearest(u, x.key).key;
      if near == x.key then t else Some(Place(u, CritOf(near, x.key), x, a))
  }

  /** Unlink the parent of the leaf reached, putting the leaf's sibling in its place. */
  function Remove(t: Trie, k: Key): Trie
    requires t.Node?
  {
    var dir := Bit(k, Pos(t.crit));
    var c := Child(t, dir);
    if c.Node? then SetChild(t, dir, Remove(c, k))
    else if c.key == k then Child(t, !dir) else t
  }

  function Delete(t: Option<Trie>, k: Key): Option<Trie> {
    match t
    case None => None
    case Some(u) =>
      if u.Node? then Some(Remove(u, k)) else if u.key == k then None else t
  }

  ghost predicate Valid(t: Option<Trie>) {
    t.Some? ==> Inv(t.value)
  }

  ghost function Map(t: Option<Trie>): map<Key, Value> {
    if t.None? then map[] else Contents(t.value)
  }

  // ------------------------------------------------------------------ insertion

  /** All keys of a subtree agree with the nearest leaf beyond the position the subtree tests. */
  lemma AgreeWithNearest(t: Trie, k: Key, d: nat, x: Key)
    requires Inv(t) && t.Node? && x in Keys(t) && Pos(t.crit) > d
    requires Agree(Nearest(t, k).key, k, d) && Bit(Nearest(t, k).key, d) != Bit(k, d)
    ensures Agree(x, k, d) && Bit(x, d) != Bit(k, d)
  {
    NearestIsStored(t, k);
    var n := Nearest(t, k).key;
    assert Agree(x, n, Pos(t.crit));
    assert Bit(x, d) == Bit(n, d);
    forall i: nat | i < d ensures Bit(x, i) == Bit(k, i) {
      assert Bit(x, i) == Bit(n, i);
    }
  }

  lemma AgreeSymmetric(a: Key, b: Key, n: nat)
    requires Agree(a, b, n)
    ensures Agree(b, a, n)
  {
  }

  lemma AgreeTransitive(a: Key, b: Key, c: Key, n: nat)
    requires Agree(a, b, n) && Agree(b, c, n)
    ensures Agree(a, c, n)
  {
  }

  /** A new key that agrees with one stored key agrees with all of them. */
  lemma AllAgreeExtend(t: Trie, u: Trie, n: Key, k: Key, pos: nat)
    requires AllAgree(t, pos) && n in Keys(t) && Agree(n, k, pos)
    requires Keys(u) == Keys(t) + {k}
    ensures AllAgree(u, pos)
  {
    AgreeSymmetric(n, k, pos);
    forall x, y | x in Keys(u) && y in Keys(u) ensures Agree(x, y, pos) {
      var x' := if x in Keys(t) then x else n;
      var y' := if y in Keys(t) then y else n;
      assert Agree(x, x', pos) && Agree(x', y', pos) && Agree(y', y, pos);
      AgreeTransitive(x, x', y', pos);
      AgreeTransitive(x, y', y, pos);
    }
  }

  lemma {:induction false} PlaceKeys(t: Trie, c: Crit, x: Trie, a: Addr)
    requires x.Leaf?
    ensures Keys(Place(t, c, x, a)) == Keys(t) + {x.key}
  {
    if t.Node? && Pos(t.crit) <= Pos(c) {
      PlaceKeys(Child(t, Bit(x.key, Pos(t.crit))), c, x, a);
    }
  }

  /** The new node splits the keys below it by its bit, at the one place where that is possible. */
  lemma {:induction false} PlaceInv(t: Trie, c: Crit, x: Trie, a: Addr)
    requires x.Leaf? && Inv(t)
    requires Agree(Nearest(t, x.key).key, x.key, Pos(c))
    requires Bit(Nearest(t, x.key).key, Pos(c)) != Bit(x.key, Pos(c))
    ensures Inv(Place(t, c, x, a))
  {
    hide Bit, Position;
    var u, d, k, n := Place(t, c, x, a), Pos(c), x.key, Nearest(t, x.key).key;
    NearestIsStored(t, k);
    PlaceKeys(t, c, x, a);
    if t.Leaf? || Pos(t.crit) > d {
      forall y | y in Keys(t) ensures Bit(y, d) != Bit(k, d) && Agree(y, k, d) {
        if t.Node? { AgreeWithNearest(t, k, d, y); }
      }
      AgreeSymmetric(n, k, d);
      forall y, z | y in Keys(t) && z in Keys(t) ensures Agree(y, z, d) {
        AgreeSymmetric(z, k, d);
        AgreeTransitive(y, k, z, d);
      }
      AllAgreeExtend(t, u, n, k, d);
    } else {
      var pos := Pos(t.crit);
      var dir := Bit(k, pos);
      var v := Child(t, dir);
      assert n == Nearest(v, k).key;
      NearestIsStored(v, k);
      assert Bit(n, pos) == dir;
      assert pos < d;
      PlaceInv(v, c, x, a);
      PlaceKeys(v, c, x, a);
      assert Agree(n, k, pos);
      AllAgreeExtend(t, u, n, k, pos);
    }
  }

  lemma SumUpdate(m: map<Key, Value>, n: map<Key, Value>, k: Key, v: Value)
    requires k !in n
    ensures m[k := v] + n == (m + n)[k := v] == m + n[k := v]
  {
  }

  lemma {:induction false} PlaceContents(t: Trie, c: Crit, x: Trie, a: Addr)
    requires x.Leaf? && Inv(t) && x.key !in Keys(t)
    ensures Contents(Place(t, c, x, a)) == Contents(t)[x.key := x.value]
  {
    hide Bit, Position;
    if t.Node? && Pos(t.crit) <= Pos(c) {
      var dir := Bit(x.key, Pos(t.crit));
      SumUpdate(Contents(t.left), Contents(t.right), x.key, x.value);
      PlaceContents(Child(t, dir), c, x, a);
    }
  }

  /** Insertion keeps the invariant; it adds the pair if the key is new and else changes nothing. */
  lemma InsertRefinesMap(t: Option<Trie>, x: Trie, a: Addr)
    requires Valid(t) && x.Leaf?
    ensures Valid(Insert(t, x, a))
    ensures Map(Insert(t, x, a)) == if x.key in Map(t) then Map(t) else Map(t)[x.key := x.value]
    ensures Insert(t, x, a) == t <==> x.key in Map(t)
  {
    if t.Some? {
      var u, k := t.value, x.key;
      LookupIsMapLookup(u, k);
      var near := Nearest(u, k).key;
      if near != k {
        DiffIsFirst(near, k);
        PlaceInv(u, CritOf(near, k), x, a);
        PlaceContents(u, CritOf(near, k), x, a);
        assert k in Contents(Insert(t, x, a).value);
      }
    }
  }

  // ------------------------------------------------------------------ deletion

  /** A stored key is only on the side its bit leads to. */
  lemma NotInSibling(t: Trie, k: Key)
    requires Inv(t) && t.Node?
    ensures k !in Keys(Child(t, !Bit(k, Pos(t.crit))))
  {
    hide Bit, Position;
  }

  lemma {:induction false} RemoveKeys(t: Trie, k: Key)
    requires Inv(t) && t.Node?
    ensures Keys(Remove(t, k)) == Keys(t) - {k}
  {
    hide Bit, Position;
    var c := Child(t, Bit(k, Pos(t.crit)));
    NotInSibling(t, k);
    if c.Node? {
      RemoveKeys(c, k);
    }
  }

  lemma SumWithout(m: map<Key, Value>, n: map<Key, Value>, k: Key)
    ensures k !in n ==> (m - {k}) + n == (m + n) - {k}
    ensures k !in m ==> m + (n - {k}) == (m + n) - {k}
  {
  }

  lemma {:induction false} RemoveContents(t: Trie, k: Key)
    requires Inv(t) && t.Node?
    ensures Contents(Remove(t, k)) == Contents(t) - {k}
  {
    hide Bit, Position, AllBits, AllAgree, DeeperThan;
    var c := Child(t, Bit(k, Pos(t.crit)));
    NotInSibling(t, k);
    SumWithout(Contents(t.left), Contents(t.right), k);
    if c.Node? {
      RemoveContents(c, k);
    }
  }

  lemma {:induction false} RemoveInv(t: Trie, k: Key)
    requires Inv(t) && t.Node?
    ensures Inv(Remove(t, k))
    ensures forall d: nat | DeeperThan(t, d) :: DeeperThan(Remove(t, k), d)
  {
    hide Bit, Position;
    var pos := Pos(t.crit);
    var dir := Bit(k, pos);
    var c := Child(t, dir);
    RemoveKeys(t, k);
    if c.Node? {
      RemoveInv(c, k);
      RemoveKeys(c, k);
    }
  }

  /** Deletion keeps the invariant and removes exactly the given key. */
  lemma DeleteRefinesMap(t: Option<Trie>, k: Key)
    requires Valid(t)
    ensures Valid(Delete(t, k))
    ensures Map(Delete(t, k)) == Map(t) - {k}
  {
    if t.Some? && t.value.Node? {
      RemoveInv(t.value, k);
      RemoveContents(t.value, k);
    }
  }

  // ------------------------------------------------------------------ canonical shape

  /** The trie without its addresses and values: what is tested where, and which keys hang where. */
  function Shape(t: Trie): Trie {
    match t
    case Leaf(_, k, _) => Leaf(0, k, 0)
    case Node(_, c, l, r) => Node(0, c, Shape(l), Shape(r))
  }

  function ShapeOf(t: Option<Trie>): Option<Trie> {
    if t.None? then None else Some(Shape(t.value))
  }

  lemma {:induction false} NonEmpty(t: Trie)
    ensures Keys(t) != {}
  {
    if t.Node? { NonEmpty(t.left); }
  }

  /** A node's keys take both values at its position, a trie deeper than the position only one. */
  lemma RootIsFirstSplit(t: Trie, u: Trie)
    requires Inv(t) && Inv(u) && t.Node? && Keys(t) == Keys(u)
    ensures u.Node? && Pos(u.crit) <= Pos(t.crit)
  {
    NonEmpty(t.left);
    NonEmpty(t.right);
    var x :| x in Keys(t.left);
    var y :| y in Keys(t.right);
    assert Bit(x, Pos(t.crit)) != Bit(y, Pos(t.crit));
    assert x in Keys(u) && y in Keys(u);
    assert u.Node?;
    assert Agree(x, y, Pos(u.crit));
  }

  /** Two tries that store the same keys have the same shape, node by node. */
  lemma {:induction false} Canonical(t: Trie, u: Trie)
    requires Inv(t) && Inv(u) && Keys(t) == Keys(u)
    ensures Shape(t) == Shape(u)
  {
    if t.Leaf? && u.Leaf? {
      assert t.key in Keys(u);
    } else {
      if t.Node? { RootIsFirstSplit(t, u); }
      if u.Node? { RootIsFirstSplit(u, t); }
      PosInjective(t.crit, u.crit);
      SideKeys(t);
      SideKeys(u);
      Canonical(t.left, u.left);
      Canonical(t.right, u.right);
    }
  }

  lemma SideKeys(t: Trie)
    requires Inv(t) && t.Node?
    ensures Keys(t.left) == set k | k in Keys(t) && !Bit(k, Pos(t.crit))
    ensures Keys(t.right) == set k | k in Keys(t) && Bit(k, Pos(t.crit))
  {
  }

  datatype Op = InsertOp(x: Trie, a: Addr) | DeleteOp(k: Key)

  ghost predicate WellFormed(ops: seq<Op>) {
    forall i | 0 <= i < |ops| && ops[i].InsertOp? :: ops[i].x.Leaf?
  }

  ghost function Apply(t: Option<Trie>, op: Op): Option<Trie>
    requires op.InsertOp? ==> op.x.Leaf?
  {
    match op
    case InsertOp(x, a) => Insert(t, x, a)
    case DeleteOp(k) => Delete(t, k)
  }

  /** The trie after a sequence of operations on the empty tree. */
  ghost function Run(ops: seq<Op>): Option<Trie>
    requires WellFormed(ops)
  {
    if ops == [] then None else Apply(Run(ops[..|ops| - 1]), ops[|ops| - 1])
  }

  /** The plain map after the same sequence; an insertion of a present key is refused. */
  ghost function MapRun(ops: seq<Op>): map<Key, Value>
    requires WellFormed(ops)
  {
    if ops == [] then map[] else
      var m := MapRun(ops[..|ops| - 1]);
      match ops[|ops| - 1]
      case InsertOp(x, _) => if x.key in m then m else m[x.key := x.value]
      case DeleteOp(k) => m - {k}
  }

  lemma {:induction false} RunRefinesMap(ops: seq<Op>)
    requires WellFormed(ops)
    ensures Valid(Run(ops)) && Map(Run(ops)) == MapRun(ops)
  {
    if ops != [] {
      var before := ops[..|ops| - 1];
      RunRefinesMap(before);
      match ops[|ops| - 1]
      case InsertOp(x, a) => InsertRefinesMap(Run(before), x, a);
      case DeleteOp(k) => DeleteRefinesMap(Run(before), k);
    }
  }

  /** Histories end with the same key set exactly when they end with structurally identical trees. */
  lemma HistoryIndependent(p: seq<Op>, q: seq<Op>)
    requires WellFormed(p) && WellFormed(q)
    ensures MapRun(p).Keys == MapRun(q).Keys <==> ShapeOf(Run(p)) == ShapeOf(Run(q))
  {
    RunRefinesMap(p);
    RunRefinesMap(q);
    var t, u := Run(p), Run(q);
    if t.Some? { NonEmpty(t.value); ShapeKeys(t.value); }
    if u.Some? { NonEmpty(u.value); ShapeKeys(u.value); }
    if t.Some? && u.Some? && Map(t).Keys == Map(u).Keys {
      Canonical(t.value, u.value);
    }
  }

  lemma {:induction false} ShapeKeys(t: Trie)
    ensures Keys(Shape(t)) == Keys(t)
  {
    if t.Node? {
      ShapeKeys(t.left);
      ShapeKeys(t.right);
    }
  }

  /** Deleting a key right after inserting it restores the tree, addresses included. */
  lemma DeleteUndoesInsert(t: Option<Trie>, x: Trie, a: Addr)
    requires Valid(t) && x.Leaf? && x.key !in Map(t)
    ensures Delete(Insert(t, x, a), x.key) == t
  {
    if t.Some? {
      var u, k := t.value, x.key;
      LookupIsMapLookup(u, k);
      var near := Nearest(u, k).key;
      DiffIsFirst(near, k);
      RemoveUndoesPlace(u, CritOf(near, k), x, a);
    }
  }

  lemma {:induction false} RemoveUndoesPlace(t: Trie, c: Crit, x: Trie, a: Addr)
    requires x.Leaf? && Inv(t)
    requires Agree(Nearest(t, x.key).key, x.key, Pos(c))
    requires Bit(Nearest(t, x.key).key, Pos(c)) != Bit(x.key, Pos(c))
    ensures Place(t, c, x, a).Node?
    ensures Remove(Place(t, c, x, a), x.key) == t
  {
    if t.Node? && Pos(t.crit) <= Pos(c) {
      RemoveUndoesPlace(Child(t, Bit(x.key, Pos(t.crit))), c, x, a);
    }
  }

  // ------------------------------------------------------------------ order of leaves

  /** The stored keys from left to right. */
  ghost function InOrder(t: Trie): (s: seq<Key>)
    ensures forall k :: k in s <==> k in Keys(t)
  {
    match t
    case Leaf(_, k, _) => [k]
    case Node(_, _, l, r) => InOrder(l) + InOrder(r)
  }

  /** Left to right, the keys are in strictly increasing unsigned lexicographic order. */
  lemma {:induction false} LeavesAreSorted(t: Trie)
    requires Inv(t)
    ensures forall i, j | 0 <= i < j < |InOrder(t)| :: Less(InOrder(t)[i], InOrder(t)[j])
  {
    if t.Node? {
      LeavesAreSorted(t.left);
      LeavesAreSorted(t.right);
      var s, n := InOrder(t), |InOrder(t.left)|;
      forall i, j | 0 <= i < j < |s| ensures Less(s[i], s[j]) {
        if i < n <= j {
          assert s[i] in InOrder(t.left) && s[j] in InOrder(t.right);
          DiffUnique(s[i], s[j], Pos(t.crit));
          LessIsZeroBit(s[i], s[j]);
        } else if j < n {
          assert s[i] == InOrder(t.left)[i] && s[j] == InOrder(t.left)[j];
        } else {
          assert s[i] == InOrder(t.right)[i - n] && s[j] == InOrder(t.right)[j - n];
        }
      }
    }
  }
}
