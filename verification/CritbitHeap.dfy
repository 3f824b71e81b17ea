/**
  critbit.c over an explicit memory: tagged pointers, cells, and writes through the address of a
  pointer. The class methods are the loops of the C functions; each is proved against the
  operations on tries, and `Publish`/`Unlink` name the single pointer write by which an insertion
  or a deletion becomes visible.
 */
module CritbitHeap {
  import opened Basics
  import opened CritbitBits
  import opened CritbitTrie

  /** A pointer; the tag says whether it leads to a string or to an internal node. */
  datatype Ptr = Null | Ext(a: Addr) | Int(a: Addr)

  datatype Cell =
    | Str(key: Key, value: Value)
    | Inner(child0: Ptr, child1: Ptr, crit: Crit)

  type Mem = map<Addr, Cell>

  datatype Heap = Heap(mem: Mem, head: Ptr)

  /** The address of a pointer variable: the root's head or a child of a node. */
  datatype Slot = Head | ChildOf(a: Addr, dir: bool)

  function ChildPtr(c: Cell, dir: bool): Ptr
    requires c.Inner?
  {
    if dir then c.child1 else c.child0
  }

  function WithChild(c: Cell, dir: bool, p: Ptr): Cell
    requires c.Inner?
  {
    if dir then c.(child1 := p) else c.(child0 := p)
  }

  predicate Writable(h: Heap, s: Slot) {
    s.ChildOf? ==> s.a in h.mem && h.mem[s.a].Inner?
  }

  function Load(h: Heap, s: Slot): Ptr
    requires Writable(h, s)
  {
    if s.Head? then h.head else ChildPtr(h.mem[s.a], s.dir)
  }

  function Store(h: Heap, s: Slot, p: Ptr): Heap
    requires Writable(h, s)
  {
    if s.Head? then h.(head := p)
    else h.(mem := h.mem[s.a := WithChild(h.mem[s.a], s.dir, p)])
  }

  // ------------------------------------------------------------------ tries in memory

  function PtrOf(t: Trie): Ptr {
    if t.Leaf? then Ext(t.a) else Int(t.a)
  }

  function PtrTo(t: Option<Trie>): Ptr {
    if t.None? then Null else PtrOf(t.value)
  }

  function CellOf(t: Trie): Cell {
    if t.Leaf? then Str(t.key, t.value) else Inner(PtrOf(t.left), PtrOf(t.right), t.crit)
  }

  ghost function Addrs(t: Trie): set<Addr> {
    match t
    case Leaf(a, _, _) => {a}
    case Node(a, _, l, r) => {a} + Addrs(l) + Addrs(r)
  }

  ghost function AddrsOf(t: Option<Trie>): set<Addr> {
    if t.None? then {} else Addrs(t.value)
  }

  /** No address occurs twice in the trie. */
  ghost predicate Distinct(t: Trie) {
    t.Node? ==>
      && t.a !in Addrs(t.left) && t.a !in Addrs(t.right)
      && Addrs(t.left) !! Addrs(t.right)
      && Distinct(t.left) && Distinct(t.right)
  }

  /** Memory holds the trie's leaves and nodes at their addresses, linked as in the trie. */
  ghost predicate Stored(m: Mem, t: Trie) {
    && t.a in m && m[t.a] == CellOf(t)
    && (t.Node? ==> Stored(m, t.left) && Stored(m, t.right))
  }

  ghost predicate Represents(h: Heap, t: Option<Trie>) {
    && h.head == PtrTo(t)
    && (t.Some? ==> Stored(h.mem, t.value) && Distinct(t.value))
  }

  lemma {:induction false} StoredFrame(m: Mem, m': Mem, t: Trie)
    requires Stored(m, t)
    requires forall a | a in Addrs(t) && a in m :: a in m' && m'[a] == m[a]
    ensures Stored(m', t)
  {
    if t.Node? {
      StoredFrame(m, m', t.left);
      StoredFrame(m, m', t.right);
    }
  }

  lemma {:induction false} StoredAddrs(m: Mem, t: Trie)
    requires Stored(m, t)
    ensures Addrs(t) <= m.Keys
  {
    if t.Node? {
      StoredAddrs(m, t.left);
      StoredAddrs(m, t.right);
    }
  }

  // ------------------------------------------------------------------ the pointer an insertion writes

  function PlaceSlot(t: Trie, s: Slot, c: Crit, k: Key): Slot {
    if t.Leaf? || Pos(t.crit) > Pos(c) then s
    else var dir := Bit(k, Pos(t.crit)); PlaceSlot(Child(t, dir), ChildOf(t.a, dir), c, k)
  }

  function PlaceSub(t: Trie, c: Crit, k: Key): Trie {
    if t.Leaf? || Pos(t.crit) > Pos(c) then t
    else PlaceSub(Child(t, Bit(k, Pos(t.crit))), c, k)
  }

  lemma {:induction false} PlaceSlotWhere(m: Mem, t: Trie, s: Slot, c: Crit, k: Key)
    requires Stored(m, t)
    ensures Stored(m, PlaceSub(t, c, k)) && Addrs(PlaceSub(t, c, k)) <= Addrs(t)
    ensures var w := PlaceSlot(t, s, c, k);
            || (w == s && PlaceSub(t, c, k) == t)
            || (w.ChildOf? && w.a in Addrs(t) && w.a in m && m[w.a].Inner?
                && ChildPtr(m[w.a], w.dir) == PtrOf(PlaceSub(t, c, k)))
  {
    if t.Node? && Pos(t.crit) <= Pos(c) {
      var dir := Bit(k, Pos(t.crit));
      PlaceSlotWhere(m, Child(t, dir), ChildOf(t.a, dir), c, k);
    }
  }

  /** The new node as it is built before it is published. */
  function NewNode(c: Crit, k: Key, x: Ptr, sub: Ptr): Cell {
    if Bit(k, Pos(c)) then Inner(sub, x, c) else Inner(x, sub, c)
  }

  /** The heap after an insertion of a new key: two fresh cells, then one pointer write. */
  ghost function Publish(h: Heap, t: Option<Trie>, x: Trie, a: Addr): Heap
    requires x.Leaf? && Represents(h, t)
    requires t.Some? ==> Nearest(t.value, x.key).key != x.key
    requires x.a !in h.mem && a !in h.mem && a != x.a
  {
    var m := h.mem[x.a := CellOf(x)];
    match t
    case None => Heap(m, PtrOf(x))
    case Some(u) =>
      var c := CritOf(Nearest(u, x.key).key, x.key);
      var w := PlaceSlot(u, Head, c, x.key);
      PlaceSlotWhere(h.mem, u, Head, c, x.key);
      var n := NewNode(c, x.key, PtrOf(x), PtrOf(PlaceSub(u, c, x.key)));
      Store(Heap(m[a := n], h.head), w, Int(a))
  }

  /** `m'` is `m` with the pointer in `w` replaced by `p`, as far as the trie's cells go. */
  ghost predicate Rewritten(m: Mem, m': Mem, t: Trie, w: Slot, p: Ptr) {
    forall b | b in Addrs(t) && b in m :: b in m' &&
      m'[b] == if w.ChildOf? && w.a == b && m[b].Inner? then WithChild(m[b], w.dir, p) else m[b]
  }

  /** A write into one child leaves the rest of the node's cells in place. */
  lemma SetChildStored(m: Mem, m': Mem, t: Trie, dir: bool, v: Trie)
    requires t.Node? && Stored(m, t) && Distinct(t)
    requires t.a in m' && m'[t.a] == WithChild(m[t.a], dir, PtrOf(v))
    requires forall b | b in Addrs(Child(t, !dir)) && b in m :: b in m' && m'[b] == m[b]
    requires Stored(m', v)
    ensures Stored(m', SetChild(t, dir, v))
  {
    hide Bit, Position;
    StoredFrame(m, m', Child(t, !dir));
  }

  /** The new trie has two more addresses, each used once. */
  lemma {:induction false} PlaceAddrs(t: Trie, c: Crit, x: Trie, a: Addr)
    requires x.Leaf? && Distinct(t)
    requires a !in Addrs(t) && x.a !in Addrs(t) && a != x.a
    ensures Distinct(Place(t, c, x, a)) && Addrs(Place(t, c, x, a)) == Addrs(t) + {x.a, a}
  {
    hide Bit, Position;
    if t.Node? && Pos(t.crit) <= Pos(c) {
      PlaceAddrs(Child(t, Bit(x.key, Pos(t.crit))), c, x, a);
    }
  }

  lemma {:induction false} PlaceStored(m: Mem, m': Mem, t: Trie, s: Slot, c: Crit, x: Trie, a: Addr)
    requires x.Leaf? && Stored(m, t) && Distinct(t)
    requires a !in Addrs(t) && x.a !in Addrs(t) && a != x.a
    requires x.a in m' && m'[x.a] == CellOf(x)
    requires a in m' && m'[a] == NewNode(c, x.key, PtrOf(x), PtrOf(PlaceSub(t, c, x.key)))
    requires s.ChildOf? ==> s.a !in Addrs(t)
    requires Rewritten(m, m', t, PlaceSlot(t, s, c, x.key), Int(a))
    ensures Stored(m', Place(t, c, x, a))
    ensures PtrOf(Place(t, c, x, a)) == if PlaceSub(t, c, x.key) == t then Int(a) else PtrOf(t)
    ensures PlaceSub(t, c, x.key) == t <==> t.Leaf? || Pos(t.crit) > Pos(c)
  {
    hide Bit, Position;
    StoredAddrs(m, t);
    if t.Leaf? || Pos(t.crit) > Pos(c) {
      StoredFrame(m, m', t);
    } else {
      var dir := Bit(x.key, Pos(t.crit));
      var v := Child(t, dir);
      var v' := Place(v, c, x, a);
      PlaceSlotWhere(m, v, ChildOf(t.a, dir), c, x.key);
      assert PlaceSub(t, c, x.key) == PlaceSub(v, c, x.key);
      PlaceStored(m, m', v, ChildOf(t.a, dir), c, x, a);
      PlaceSlotIsHere(v, ChildOf(t.a, dir), c, x.key);
      assert m'[t.a] == WithChild(m[t.a], dir, PtrOf(v'));
      SetChildStored(m, m', t, dir, v');
    }
  }

  lemma {:induction false} PlaceSlotIsHere(t: Trie, s: Slot, c: Crit, k: Key)
    requires s.ChildOf? ==> s.a !in Addrs(t)
    ensures PlaceSlot(t, s, c, k) == s <==> t.Leaf? || Pos(t.crit) > Pos(c)
    ensures PlaceSlot(t, s, c, k) == s || (PlaceSlot(t, s, c, k).ChildOf? && PlaceSlot(t, s, c, k).a in Addrs(t))
  {
    if t.Node? && Pos(t.crit) <= Pos(c) {
      var dir := Bit(k, Pos(t.crit));
      PlaceSlotInside(Child(t, dir), ChildOf(t.a, dir), c, k);
    }
  }

  lemma {:induction false} PlaceSlotInside(t: Trie, s: Slot, c: Crit, k: Key)
    ensures PlaceSlot(t, s, c, k) == s || (PlaceSlot(t, s, c, k).ChildOf? && PlaceSlot(t, s, c, k).a in Addrs(t))
  {
    if t.Node? && Pos(t.crit) <= Pos(c) {
      var dir := Bit(k, Pos(t.crit));
      PlaceSlotInside(Child(t, dir), ChildOf(t.a, dir), c, k);
    }
  }

  lemma LoneLeaf(m: Mem, x: Trie)
    requires x.Leaf? && x.a in m && m[x.a] == CellOf(x)
    ensures Stored(m, x) && Distinct(x) && Addrs(x) == {x.a}
  {
  }

  /** Publishing is insertion: the new memory holds exactly the new trie. */
  lemma PublishIsInsert(h: Heap, t: Option<Trie>, x: Trie, a: Addr)
    requires x.Leaf? && Represents(h, t)
    requires t.Some? ==> Nearest(t.value, x.key).key != x.key
    requires x.a !in h.mem && a !in h.mem && a != x.a
    ensures Represents(Publish(h, t, x, a), Insert(t, x, a))
    ensures AddrsOf(Insert(t, x, a)) == AddrsOf(t) + (if t.Some? then {x.a, a} else {x.a})
    ensures Publish(h, t, x, a).mem.Keys == h.mem.Keys + (if t.Some? then {x.a, a} else {x.a})
  {
    hide Bit, Position, Diff, Place, PlaceSub, PlaceSlot, Nearest, Stored, Distinct, Addrs;
    if t.Some? {
      var u := t.value;
      var c := CritOf(Nearest(u, x.key).key, x.key);
      StoredAddrs(h.mem, u);
      PlaceSlotWhere(h.mem, u, Head, c, x.key);
      var h' := Publish(h, t, x, a);
      PlaceStored(h.mem, h'.mem, u, Head, c, x, a);
      PlaceSlotIsHere(u, Head, c, x.key);
      PlaceAddrs(u, c, x, a);
    } else {
      LoneLeaf(Publish(h, t, x, a).mem, x);
    }
  }

  // ------------------------------------------------------------------ the pointer a deletion writes

  /** The node above the leaf that the key leads to. */
  function Parent(t: Trie, k: Key): (q: Trie)
    requires t.Node?
    ensures q.Node?
  {
    var c := Child(t, Bit(k, Pos(t.crit)));
    if c.Node? then Parent(c, k) else t
  }

  function RemoveSlot(t: Trie, s: Slot, k: Key): Slot
    requires t.Node?
  {
    var dir := Bit(k, Pos(t.crit));
    if Child(t, dir).Node? then RemoveSlot(Child(t, dir), ChildOf(t.a, dir), k) else s
  }

  function Sibling(t: Trie, k: Key): Trie
    requires t.Node?
  {
    var q := Parent(t, k);
    Child(q, !Bit(k, Pos(q.crit)))
  }

  lemma {:induction false} RemoveSlotWhere(m: Mem, t: Trie, s: Slot, k: Key)
    requires Stored(m, t) && t.Node?
    ensures Stored(m, Parent(t, k)) && Addrs(Parent(t, k)) <= Addrs(t)
    ensures Nearest(t, k) == Child(Parent(t, k), Bit(k, Pos(Parent(t, k).crit)))
    ensures var w := RemoveSlot(t, s, k);
            || (w == s && Parent(t, k) == t)
            || (w.ChildOf? && w.a in Addrs(t) && w.a in m && m[w.a].Inner?
                && ChildPtr(m[w.a], w.dir) == PtrOf(Parent(t, k)))
  {
    hide Bit, Position;
    var dir := Bit(k, Pos(t.crit));
    if Child(t, dir).Node? {
      RemoveSlotWhere(m, Child(t, dir), ChildOf(t.a, dir), k);
    }
  }

  /** The heap after the unlinking write of a deletion; the unlinked cells are still there. */
  ghost function Unlink(h: Heap, t: Option<Trie>, k: Key): Heap
    requires Represents(h, t) && t.Some?
  {
    var u := t.value;
    if u.Leaf? then h.(head := Null)
    else
      RemoveSlotWhere(h.mem, u, Head, k);
      Store(h, RemoveSlot(u, Head, k), PtrOf(Sibling(u, k)))
  }

  /** What a deletion of a stored key unlinks: the key's leaf and its parent node, if any. */
  ghost function Unlinked(t: Trie, k: Key): set<Addr> {
    if t.Leaf? then {t.a} else {Nearest(t, k).a, Parent(t, k).a}
  }

  /** The smaller trie has two addresses less. */
  lemma {:induction false} RemoveAddrs(t: Trie, k: Key)
    requires t.Node? && Distinct(t) && Nearest(t, k).key == k
    ensures Distinct(Remove(t, k))
    ensures Addrs(Remove(t, k)) == Addrs(t) - Unlinked(t, k) && Unlinked(t, k) <= Addrs(t)
  {
    hide Bit, Position;
    var v := Child(t, Bit(k, Pos(t.crit)));
    if v.Node? {
      RemoveAddrs(v, k);
    }
  }

  lemma {:induction false} RemoveStored(m: Mem, m': Mem, t: Trie, s: Slot, k: Key)
    requires t.Node? && Stored(m, t) && Distinct(t) && Nearest(t, k).key == k
    requires s.ChildOf? ==> s.a !in Addrs(t)
    requires Rewritten(m, m', t, RemoveSlot(t, s, k), PtrOf(Sibling(t, k)))
    ensures Stored(m', Remove(t, k))
    ensures PtrOf(Remove(t, k)) == if Child(t, Bit(k, Pos(t.crit))).Node? then PtrOf(t) else PtrOf(Sibling(t, k))
  {
    hide Bit, Position;
    StoredAddrs(m, t);
    var dir := Bit(k, Pos(t.crit));
    var v := Child(t, dir);
    if v.Node? {
      var w := RemoveSlot(v, ChildOf(t.a, dir), k);
      RemoveSlotWhere(m, v, ChildOf(t.a, dir), k);
      RemoveSlotInside(v, ChildOf(t.a, dir), k);
      RemoveStored(m, m', v, ChildOf(t.a, dir), k);
      SetChildStored(m, m', t, dir, Remove(v, k));
    } else {
      RemoveHereStored(m, m', t, s, k);
    }
  }

  /** The victim hangs on this node, which goes with it. */
  lemma RemoveHereStored(m: Mem, m': Mem, t: Trie, s: Slot, k: Key)
    requires t.Node? && Stored(m, t) && Distinct(t) && Nearest(t, k).key == k && !Child(t, Bit(k, Pos(t.crit))).Node?
    requires Rewritten(m, m', t, RemoveSlot(t, s, k), PtrOf(Sibling(t, k)))
    requires s.ChildOf? ==> s.a !in Addrs(t)
    ensures Stored(m', Remove(t, k))
    ensures PtrOf(Remove(t, k)) == PtrOf(Sibling(t, k))
  {
    hide Bit, Position;
    StoredAddrs(m, t);
    StoredFrame(m, m', Child(t, !Bit(k, Pos(t.crit))));
  }

  lemma {:induction false} RemoveSlotInside(t: Trie, s: Slot, k: Key)
    requires t.Node?
    ensures if Child(t, Bit(k, Pos(t.crit))).Node?
            then RemoveSlot(t, s, k).ChildOf? && RemoveSlot(t, s, k).a in Addrs(t)
            else RemoveSlot(t, s, k) == s
  {
    var dir := Bit(k, Pos(t.crit));
    if Child(t, dir).Node? {
      RemoveSlotInside(Child(t, dir), ChildOf(t.a, dir), k);
    }
  }

  /** Unlinking is deletion: the reachable memory holds exactly the smaller trie. */
  lemma UnlinkIsDelete(h: Heap, t: Option<Trie>, k: Key)
    requires Represents(h, t) && t.Some? && Nearest(t.value, k).key == k
    ensures Represents(Unlink(h, t, k), Delete(t, k))
    ensures AddrsOf(Delete(t, k)) == AddrsOf(t) - Unlinked(t.value, k)
    ensures Unlinked(t.value, k) <= AddrsOf(t)
    ensures Unlink(h, t, k).mem.Keys == h.mem.Keys
  {
    var u := t.value;
    if u.Node? {
      StoredAddrs(h.mem, u);
      RemoveSlotWhere(h.mem, u, Head, k);
      RemoveStored(h.mem, Unlink(h, t, k).mem, u, Head, k);
      RemoveAddrs(u, k);
    }
  }

  ghost function Above(s: set<Addr>): (a: Addr)
    ensures forall b | b in s :: b < a
  {
    if s == {} then 0 else
      var b :| b in s;
      var a := Above(s - {b});
      assert forall d | d in s :: d == b || d in s - {b};
      if b < a then a else b + 1
  }

  datatype Lock = LeftLock | RightLock

  class CritbitRoot {
    var mem: Mem
    var head: Ptr
    var curLock: Lock
    var prevLock: Lock
    ghost var trie: Option<Trie>

    ghost function H(): Heap
      reads this
    {
      Heap(mem, head)
    }

    /** Memory holds the trie and nothing else, and the two locks play different roles. */
    ghost predicate Valid()
      reads this
    {
      && Represents(H(), trie)
      && mem.Keys == AddrsOf(trie)
      && CritbitTrie.Valid(trie)
      && curLock != prevLock
    }

    ghost function Contents(): map<Key, Value>
      reads this
    {
      Map(trie)
    }

    constructor ()
      ensures Valid() && Contents() == map[]
    {
      mem, head := map[], Null;
      curLock, prevLock := LeftLock, RightLock;
      trie := None;
    }

    /** The loop of find_nearest. */
    method FindNearest(k: Key) returns (p: Ptr)
      requires Valid() && trie.Some?
      ensures p == PtrOf(Nearest(trie.value, k))
    {
      p := head;
      ghost var sub := trie.value;
      while p.Int?
        invariant Stored(mem, sub) && p == PtrOf(sub) && Nearest(sub, k) == Nearest(trie.value, k)
        decreases sub
      {
        var node := mem[p.a];
        DirectionIsBit(node.crit.byte, node.crit.otherbits, k);
        var dir := GetDirection(node.crit.byte, node.crit.otherbits, k);
        p := ChildPtr(node, dir == 1);
        sub := Child(sub, dir == 1);
      }
    }

    /** 0 and the stored value if the key is present, 1 otherwise; the tree must not be empty. */
    method Get(k: Key) returns (ret: int, out: Option<Value>)
      requires Valid() && trie.Some?
      ensures ret == if k in Contents() then 0 else 1
      ensures out == if k in Contents() then Some(Contents()[k]) else None
    {
      var nearest := FindNearest(k);
      LookupIsMapLookup(trie.value, k);
      NearestIsInMemory(mem, trie.value, k);
      ret, out := 1, None;
      if mem[nearest.a].key == k {
        out, ret := Some(mem[nearest.a].value), 0;
      }
    }

    /** Some address not in use and not in `taken`. */
    method Malloc(taken: set<Addr>) returns (a: Addr)
      ensures a !in mem && a !in taken
    {
      assert Above(mem.Keys + taken) !in mem.Keys + taken;
      a :| a !in mem.Keys + taken;
    }

    /** The insertion loop that walks to the pointer the new node has to replace. */
    method FindPlace(key: Key, newbyte: nat, newotherbits: Byte) returns (wherep: Slot)
      requires Valid() && trie.Some? && IsMask(newotherbits)
      ensures Writable(H(), wherep)
      ensures wherep == PlaceSlot(trie.value, Head, RawCrit(newbyte, newotherbits), key)
      ensures Load(H(), wherep) == PtrOf(PlaceSub(trie.value, RawCrit(newbyte, newotherbits), key))
    {
      ghost var c: Crit, u, sub := RawCrit(newbyte, newotherbits), trie.value, trie.value;
      wherep := Head;
      while true
        invariant Writable(H(), wherep) && Load(H(), wherep) == PtrOf(sub) && Stored(mem, sub)
        invariant PlaceSlot(sub, wherep, c, key) == PlaceSlot(u, Head, c, key)
        invariant PlaceSub(sub, c, key) == PlaceSub(u, c, key)
        decreases sub
      {
        var p := Deref(wherep);
        if !p.Int? { break; }
        var q := mem[p.a];
        PositionOrder(q.crit.byte, q.crit.otherbits, newbyte, newotherbits);
        if q.crit.byte > newbyte { break; }
        if q.crit.byte == newbyte && q.crit.otherbits > newotherbits { break; }
        DirectionIsBit(q.crit.byte, q.crit.otherbits, key);
        var dir := GetDirection(q.crit.byte, q.crit.otherbits, key);
        wherep := ChildOf(p.a, dir == 1);
        sub := Child(sub, dir == 1);
      }
    }

    method Deref(s: Slot) returns (p: Ptr)
      requires Writable(H(), s)
      ensures p == Load(H(), s)
    {
      p := if s.Head? then head else ChildPtr(mem[s.a], s.dir);
    }

    method Assign(s: Slot, p: Ptr)
      requires Writable(H(), s)
      modifies this`mem, this`head
      ensures H() == Store(old(H()), s, p)
    {
      if s.Head? {
        head := p;
      } else {
        mem := mem[s.a := WithChild(mem[s.a], s.dir, p)];
      }
    }

    /**
      Returns 1 and changes nothing if the key is present. Otherwise builds a leaf `x` and a node at
      `a` in fresh memory and publishes them.
     */
    method InsertInplace(key: Key, value: Value) returns (ret: int, ghost x: Trie, ghost a: Addr)
      requires Valid()
      modifies this`mem, this`head, this`trie
      ensures Valid() && x == Leaf(x.a, key, value)
      ensures ret == if key in old(Contents()) then 1 else 0
      ensures trie == Insert(old(trie), x, a)
      ensures Contents() == if key in old(Contents()) then old(Contents()) else old(Contents())[key := value]
      ensures ret == 1 ==> H() == old(H())
      ensures ret == 0 ==> x.a !in old(mem) && a !in old(mem) && a != x.a
                           && (old(trie).Some? ==> Nearest(old(trie).value, key).key != key)
                           && H() == Publish(old(H()), old(trie), x, a)
    {
      hide Bit, Position, Diff;
      if head == Null {
        var p := Malloc({});
        x, a := Leaf(p, key, value), Above(mem.Keys + {p});
        PublishIsInsert(H(), trie, x, a);
        InsertRefinesMap(trie, x, a);
        mem := mem[p := Str(key, value)];
        head := Ext(p);
        trie := Some(x);
        return 0, x, a;
      }

      var p := FindNearest(key);
      NearestIsInMemory(mem, trie.value, key);
      LookupIsMapLookup(trie.value, key);
      var near := mem[p.a].key;
      var found, newbyte, newotherbits := FindCritical(near, key);
      if !found {
        x, a := Leaf(0, key, value), 0;
        InsertRefinesMap(trie, x, a);
        return 1, x, a;
      }
      var newcrit: Crit := RawCrit(newbyte, newotherbits);
      PosInjective(newcrit, CritOf(near, key));
      DiffIsFirst(near, key);
      // the direction of the old subtree at the new node, read off the nearest leaf's byte
      DirectionOfByte(newbyte, newotherbits, near);
      var newdirection := (1 + (newotherbits | At(near, newbyte)) as nat) / 256;

      InsertRefinesMapAt(trie, key, value);
      x, a := LinkNew(key, value, newbyte, newotherbits, newdirection == 1);
      ret := 0;
    }

    /** Builds the leaf and the node in fresh memory, walks to the pointer to replace, publishes. */
    method LinkNew(key: Key, value: Value, newbyte: nat, newotherbits: Byte, newdirection: bool)
      returns (ghost x: Trie, ghost a: Addr)
      requires Valid() && trie.Some? && IsMask(newotherbits)
      requires var near := Nearest(trie.value, key).key;
               && near != key && CritOf(near, key) == RawCrit(newbyte, newotherbits)
               && newdirection == Bit(near, Position(newbyte, newotherbits))
      modifies this`mem, this`head, this`trie
      ensures Valid() && x == Leaf(x.a, key, value)
      ensures trie == Insert(old(trie), x, a)
      ensures x.a !in old(mem) && a !in old(mem) && a != x.a
      ensures H() == Publish(old(H()), old(trie), x, a)
    {
      hide Bit, Position, Diff, Place, PlaceSub, PlaceSlot, Stored, Distinct, Nearest, Addrs, CritbitTrie.Map, Keys,
        Inv;
      DiffIsFirst(Nearest(trie.value, key).key, key);
      var newcrit: Crit := RawCrit(newbyte, newotherbits);
      var node := Malloc({});
      var str := Malloc({node});
      x, a := Leaf(str, key, value), node;
      PublishIsInsert(H(), trie, x, a);
      InsertRefinesMap(trie, x, a);
      var wherep := FindPlace(key, newbyte, newotherbits);
      var below := Deref(wherep);
      mem := mem[str := Str(key, value)][node :=
        if newdirection then Inner(Ext(str), below, newcrit) else Inner(below, Ext(str), newcrit)];
      Assign(wherep, Int(node));  // publish
      trie := Insert(trie, x, a);
    }

    /** The deletion loop: the leaf reached, the pointer to its parent, the parent and the side. */
    method FindVictim(key: Key) returns (p: Ptr, whereq: Option<Slot>, q: Ptr, dir: bool)
      requires Valid() && trie.Some?
      ensures p == PtrOf(Nearest(trie.value, key))
      ensures trie.value.Leaf? ==> whereq == None
      ensures trie.value.Node? ==> var parent := Parent(trie.value, key);
                && whereq == Some(RemoveSlot(trie.value, Head, key))
                && q == Int(parent.a) && dir == Bit(key, Pos(parent.crit))
    {
      hide Bit, Position;
      ghost var u, sub := trie.value, trie.value;
      var wherep := Head;
      whereq, q, dir := None, Null, false;
      p := head;
      while p.Int?
        invariant Writable(H(), wherep) && Load(H(), wherep) == p == PtrOf(sub) && Stored(mem, sub)
        invariant Nearest(sub, key) == Nearest(u, key)
        invariant sub.Node? ==> u.Node?
        invariant u.Leaf? ==> sub == u && whereq == None
        invariant sub.Node? ==> RemoveSlot(sub, wherep, key) == RemoveSlot(u, Head, key)
                                && Parent(sub, key) == Parent(u, key)
        invariant sub.Leaf? && u.Node? ==>
                    && whereq == Some(RemoveSlot(u, Head, key))
                    && q == Int(Parent(u, key).a)
                    && dir == Bit(key, Pos(Parent(u, key).crit))
        decreases sub
      {
        whereq := Some(wherep);
        q := p;
        var node := mem[q.a];
        DirectionIsBit(node.crit.byte, node.crit.otherbits, key);
        dir := GetDirection(node.crit.byte, node.crit.otherbits, key) == 1;
        wherep := ChildOf(q.a, dir);
        p := ChildPtr(node, dir);
        sub := Child(sub, dir);
      }
    }

    /**
      Returns NULL and changes nothing if the key is absent. Otherwise unlinks the key's leaf, with
      its parent if there is one, and returns the topmost unlinked cell.
     */
    method DeleteInplace(key: Key) returns (p: Ptr)
      requires Valid()
      modifies this`mem, this`head, this`trie
      ensures Represents(H(), trie) && trie == Delete(old(trie), key) && CritbitTrie.Valid(trie)
      ensures p == Null <==> key !in old(Contents())
      ensures p == Null ==> H() == old(H()) && trie == old(trie)
      ensures p != Null ==> old(trie).Some? && H() == Unlink(old(H()), old(trie), key)
      ensures p != Null ==> p == if old(trie).value.Leaf? then Ext(old(trie).value.a)
                                 else Int(Parent(old(trie).value, key).a)
      ensures p != Null ==> p.a in old(mem) && p.a in mem && mem[p.a] == old(mem)[p.a]
    {
      hide Bit, Position;
      DeleteRefinesMap(trie, key);
      if head == Null { return Null; }
      LookupIsMapLookup(trie.value, key);
      NearestIsInMemory(mem, trie.value, key);
      var whereq, q, dir;
      p, whereq, q, dir := FindVictim(key);
      if mem[p.a].key != key {
        RemoveAbsent(trie, key);
        return Null;
      }
      UnlinkIsDelete(H(), trie, key);
      if whereq.None? {
        head := Null;
        trie := None;
        return p;
      }
      RemoveSlotWhere(mem, trie.value, Head, key);
      ParentUntouched(mem, trie.value, key);
      Assign(whereq.value, ChildPtr(mem[q.a], !dir));
      trie := Delete(trie, key);
      p := q;
    }

    /**
      Deletes a key and frees what was unlinked; memory then holds the smaller tree and nothing
      else. The two read locks change roles on every call, whether or not the key was present.
     */
    method CritbitDelete(key: Key) returns (ret: int)
      requires Valid()
      modifies this
      ensures Valid()
      ensures ret == if key in old(Contents()) then 0 else 1
      ensures Contents() == old(Contents()) - {key}
      ensures trie == Delete(old(trie), key)
      ensures mem.Keys == old(mem).Keys - (if ret == 0 then Unlinked(old(trie).value, key) else {})
      ensures curLock == old(prevLock) && prevLock == old(curLock)
    {
      hide Bit, Position;
      DeleteRefinesMap(trie, key);
      ghost var t := trie;
      var p := DeleteInplace(key);
      curLock, prevLock := prevLock, curLock;
      if p == Null { return 1; }
      LookupIsMapLookup(t.value, key);
      UnlinkIsDelete(old(H()), t, key);
      FreeUnlinked(p, key, old(H()), t.value);
      ret := 0;
    }

    /** Frees the unlinked leaf, found by comparing strings, and the unlinked node above it. */
    method FreeUnlinked(p: Ptr, key: Key, ghost h: Heap, ghost t: Trie)
      requires Represents(h, Some(t)) && Nearest(t, key).key == key
      requires Inv(t) && p != Null
      requires H() == Unlink(h, Some(t), key) && p.a in h.mem && p.a in mem && mem[p.a] == h.mem[p.a]
      requires p == if t.Leaf? then Ext(t.a) else Int(Parent(t, key).a)
      requires Represents(H(), trie) && AddrsOf(trie) !! Unlinked(t, key)
      modifies this`mem
      ensures mem.Keys == old(mem).Keys - Unlinked(t, key)
      ensures Represents(H(), trie)
    {
      hide Bit, Position;
      ghost var m := mem;
      if !p.Int? {
        mem := mem - {p.a};
      } else {
        RemoveSlotWhere(h.mem, t, Head, key);
        assert mem[p.a] == CellOf(Parent(t, key));
        LeafSurvives(h, t, key);
        var node := mem[p.a];
        if !node.child0.Int? && mem[node.child0.a].key == key {
          mem := mem - {node.child0.a} - {p.a};
        } else {
          mem := mem - {node.child1.a} - {p.a};
        }
      }
      if trie.Some? { StoredFrame(m, mem, trie.value); }
    }
  }

  /** After the unlinking write both children of the unlinked node are still readable strings or nodes. */
  lemma LeafSurvives(h: Heap, t: Trie, k: Key)
    requires Represents(h, Some(t)) && t.Node? && Inv(t) && Nearest(t, k).key == k
    ensures var m := Unlink(h, Some(t), k).mem;
            var q := Parent(t, k);
            && (q.left.Leaf? ==> q.left.a in m && m[q.left.a] == CellOf(q.left))
            && (q.right.Leaf? ==> q.right.a in m && m[q.right.a] == CellOf(q.right))
            && q.left.a != q.right.a
            && (!Bit(k, Pos(q.crit)) ==> q.left.Leaf? && q.left.key == k)
            && (Bit(k, Pos(q.crit)) ==> q.right.Leaf? && q.right.key == k && (q.left.Leaf? ==> q.left.key != k))
  {
    hide Bit, Position;
    RemoveSlotWhere(h.mem, t, Head, k);
    ParentInv(t, k);
    var q, w := Parent(t, k), RemoveSlot(t, Head, k);
    assert q.left.a in Addrs(q.left) && q.right.a in Addrs(q.right);
    assert h.mem[q.left.a] == CellOf(q.left) && h.mem[q.right.a] == CellOf(q.right);
    assert q.left.Leaf? ==> w != ChildOf(q.left.a, true) && w != ChildOf(q.left.a, false);
    assert q.right.Leaf? ==> w != ChildOf(q.right.a, true) && w != ChildOf(q.right.a, false);
    if q.left.Leaf? { assert q.left.key in Keys(q.left); }
  }

  lemma {:induction false} ParentInv(t: Trie, k: Key)
    requires t.Node? && Inv(t) && Distinct(t)
    ensures Inv(Parent(t, k)) && Distinct(Parent(t, k))
  {
    var c := Child(t, Bit(k, Pos(t.crit)));
    if c.Node? { ParentInv(c, k); }
  }

  lemma InsertRefinesMapAt(t: Option<Trie>, k: Key, v: Value)
    requires CritbitTrie.Valid(t) && k !in Map(t)
    ensures forall b: Addr, a: Addr {:trigger Insert(t, Leaf(b, k, v), a)} ::
              Map(Insert(t, Leaf(b, k, v), a)) == Map(t)[k := v]
  {
    forall b: Addr, a: Addr ensures Map(Insert(t, Leaf(b, k, v), a)) == Map(t)[k := v] {
      InsertRefinesMap(t, Leaf(b, k, v), a);
    }
  }

  lemma NearestIsInMemory(m: Mem, t: Trie, k: Key)
    requires Stored(m, t)
    ensures Stored(m, Nearest(t, k))
  {
  }

  lemma RemoveAbsent(t: Option<Trie>, k: Key)
    requires t.Some? && Nearest(t.value, k).key != k
    ensures Delete(t, k) == t
  {
    if t.value.Node? { RemoveAbsentNode(t.value, k); }
  }

  lemma {:induction false} RemoveAbsentNode(t: Trie, k: Key)
    requires t.Node? && Nearest(t, k).key != k
    ensures Remove(t, k) == t
  {
    var c := Child(t, Bit(k, Pos(t.crit)));
    if c.Node? { RemoveAbsentNode(c, k); }
  }

  /** The unlinking write does not go to the unlinked node itself. */
  lemma ParentUntouched(m: Mem, t: Trie, k: Key)
    requires t.Node? && Stored(m, t) && Distinct(t)
    ensures RemoveSlot(t, Head, k).ChildOf? ==> RemoveSlot(t, Head, k).a != Parent(t, k).a
  {
    RemoveSlotAbove(m, t, Head, k);
  }

  lemma {:induction false} RemoveSlotAbove(m: Mem, t: Trie, s: Slot, k: Key)
    requires t.Node? && Stored(m, t) && Distinct(t)
    requires s.ChildOf? ==> s.a !in Addrs(t)
    ensures RemoveSlot(t, s, k).ChildOf? ==> RemoveSlot(t, s, k).a != Parent(t, k).a
    ensures Parent(t, k).a in Addrs(t)
  {
    var dir := Bit(k, Pos(t.crit));
    if Child(t, dir).Node? { RemoveSlotAbove(m, Child(t, dir), ChildOf(t.a, dir), k); }
  }
}
