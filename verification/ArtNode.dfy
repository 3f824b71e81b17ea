/** The four node layouts as the code holds them, in arrays changed in place and replaced when full or sparse. */
module ArtNode {
  import opened Basics
  import opened ArtBody

  /** art_node4 and art_node16: sorted keys and, beside them, the children. */
  class SmallNode<T(0)> {
    const cap: nat
    var num: nat
    const keys: array<nat>
    const children: array<T>

    ghost predicate Valid()
      reads this
    {
      (cap == 4 || cap == 16) && keys.Length == cap == children.Length && num <= cap && Apart(keys, children)
    }

    ghost function Content(): Body<T>
      reads this, keys, children
      requires Valid()
    {
      if cap == 4 then B4(keys[..num], children[..num]) else B16(keys[..num], children[..num])
    }

    /** alloc_node followed by copying the arrays of another small node. */
    constructor (cap: nat, ks: seq<nat>, xs: seq<T>)
      requires (cap == 4 || cap == 16) && |ks| == |xs| <= cap
      ensures Valid() && fresh(this) && fresh(keys) && fresh(children) && this.cap == cap
      ensures keys[..num] == ks && children[..num] == xs
    {
      this.cap := cap;
      this.num := |ks|;
      var k := new nat[cap];
      var x := new T[cap];
      keys := k;
      children := x;
      new;
      forall i | 0 <= i < |ks| { k[i] := ks[i]; }
      forall i | 0 <= i < |xs| { x[i] := xs[i]; }
      assert keys[..num] == ks;
      assert children[..num] == xs;
    }

    /** find_child. */
    method FindChild(c: nat) returns (i: nat)
      requires Valid()
      ensures i == IndexOf(keys[..num], c)
    {
      i := 0;
      while i < num && keys[i] != c
        invariant i <= num && forall j | 0 <= j < i :: keys[j] != c
      {
        i := i + 1;
      }
      ghost var k := IndexOf(keys[..num], c);
      assert i < num ==> keys[..num][i] == c;
      assert k < num ==> keys[..num][k] == keys[k];
    }

    /** Where the new key belongs: before the first greater one. */
    method FindPlace(c: nat) returns (idx: nat)
      requires Valid()
      ensures idx == Place(keys[..num], c) && idx <= num
    {
      idx := 0;
      while idx < num && !(c < keys[idx])
        invariant idx <= num && forall j | 0 <= j < idx :: keys[j] <= c
      {
        idx := idx + 1;
      }
      ghost var p := Place(keys[..num], c);
      assert idx < num ==> keys[..num][idx] > c;
      assert p < num ==> keys[..num][p] == keys[p];
    }

    /** add_child4 and add_child16 when there is room: both arrays are shifted up by one. */
    method AddChild(c: nat, x: T)
      requires Valid() && num < cap
      modifies this`num, keys, children
      ensures Valid() && num == old(num) + 1
      ensures var i := Place(old(keys[..num]), c);
              && keys[..num] == InsertAt(old(keys[..num]), i, c)
              && children[..num] == InsertAt(old(children[..num]), i, x)
    {
      hide Place, InsertAt;
      ghost var ks, xs := keys[..num], children[..num];
      var idx := FindPlace(c);
      forall i | idx < i <= num { keys[i] := keys[i - 1]; }
      forall i | idx < i <= num { children[i] := children[i - 1]; }
      keys[idx] := c;
      children[idx] := x;
      num := num + 1;
      InsertAtIs(ks, idx, c, keys[..num]);
      InsertAtIs(xs, idx, x, children[..num]);
    }

    /** The array part of remove_child4 and remove_child16: both arrays are shifted down by one. */
    method RemoveChild(pos: nat)
      requires Valid() && pos < num
      modifies this`num, keys, children
      ensures Valid() && num == old(num) - 1
      ensures keys[..num] == RemoveAt(old(keys[..num]), pos)
      ensures children[..num] == RemoveAt(old(children[..num]), pos)
    {
      forall i | pos <= i < num - 1 { keys[i] := keys[i + 1]; }
      forall i | pos <= i < num - 1 { children[i] := children[i + 1]; }
      num := num - 1;
    }
  }

  lemma InsertAtIs<T>(s: seq<T>, i: nat, x: T, r: seq<T>)
    requires i <= |s| && |r| == |s| + 1
    requires forall j {:trigger r[j]} | 0 <= j < |r| :: r[j] == if j < i then s[j] else if j == i then x else s[j - 1]
    ensures r == InsertAt(s, i, x)
  {
  }

  ghost predicate Apart<S, T>(a: array<S>, b: array<T>) {
    a as object != b as object
  }

  /** art_node48: for every byte one plus the slot of its child, or zero. */
  class Node48<T(0)> {
    var num: nat
    const keys: array<nat>
    const children: array<Option<T>>

    ghost predicate Valid()
      reads this, keys
    {
      && keys.Length == 256 && children.Length == 48 && Apart(keys, children)
      && forall c | 0 <= c < 256 :: keys[c] <= 48
    }

    ghost function Content(): Body<T>
      reads this, keys, children
      requires Valid()
      ensures Shaped(Content())
    {
      B48(num, keys[..], children[..])
    }

    constructor ()
      ensures Valid() && fresh(this) && fresh(keys) && fresh(children) && num == 0
      ensures (forall c | 0 <= c < 256 :: keys[c] == 0) && forall p | 0 <= p < 48 :: children[p] == None
    {
      num := 0;
      keys := new nat[256](_ => 0);
      children := new Option<T>[48](_ => None);
    }

    /** add_child48 when there is room: the first free slot. */
    method AddChild(c: nat, x: T)
      requires Valid() && c < 256 && FirstFree(children[..]) < 48
      modifies this`num, keys, children
      ensures Valid()
      ensures var p := FirstFree(old(children[..]));
              Content() == B48(old(num) + 1, old(keys[..])[c := p + 1], old(children[..])[p := Some(x)])
    {
      var pos := 0;
      ghost var free := FirstFree(children[..]);
      assert children[..][free] == None;
      while children[pos].Some?
        invariant pos <= free
        decreases free - pos
      {
        assert pos != free;
        pos := pos + 1;
      }
      assert pos == free by { assert children[..][pos].None?; }
      children[pos] := Some(x);
      keys[c] := pos + 1;
      num := num + 1;
    }

    /** remove_child48 before it shrinks the node. */
    method RemoveChild(c: nat)
      requires Valid() && c < 256 && keys[c] != 0 && num > 0
      modifies this`num, keys, children
      ensures Valid()
      ensures Content() == B48(old(num) - 1, old(keys[..])[c := 0], old(children[..])[old(keys[c]) - 1 := None])
    {
      var pos := keys[c];
      keys[c] := 0;
      children[pos - 1] := None;
      num := num - 1;
    }
  }

  /** art_node256: one child per byte. */
  class Node256<T(0)> {
    var num: nat
    const children: array<Option<T>>

    ghost predicate Valid()
      reads this
    {
      children.Length == 256
    }

    ghost function Content(): Body<T>
      reads this, children
      requires Valid()
      ensures Shaped(Content())
    {
      B256(num, children[..])
    }

    constructor ()
      ensures Valid() && fresh(this) && fresh(children) && num == 0
      ensures forall c | 0 <= c < 256 :: children[c] == None
    {
      num := 0;
      children := new Option<T>[256](_ => None);
    }
  }

  /** A node of any layout, as the type tag of art_node tells. */
  datatype Ref<!T(0)> = Small(n: SmallNode<T>) | Mid(m: Node48<T>) | Full(f: Node256<T>) {
    ghost predicate Valid()
      reads Repr()
    {
      match this
      case Small(n) => n.Valid()
      case Mid(m) => m.Valid()
      case Full(f) => f.Valid()
    }

    ghost function Repr(): set<object> {
      match this
      case Small(n) => {n, n.keys, n.children}
      case Mid(m) => {m, m.keys, m.children}
      case Full(f) => {f, f.children}
    }

    ghost function Content(): (b: Body<T>)
      reads Repr()
      requires Valid()
      ensures Shaped(b)
    {
      match this
      case Small(n) => n.Content()
      case Mid(m) => m.Content()
      case Full(f) => f.Content()
    }
  }

  /** The new NODE48 of add_child16. */
  method Grow16Node<T(0)>(n: SmallNode<T>) returns (m: Node48<T>)
    requires n.Valid() && n.cap == 16
    requires Ascending(n.keys[..n.num]) && forall i | 0 <= i < n.num :: n.keys[i] < 256
    ensures m.Valid() && fresh(m) && fresh(m.keys) && fresh(m.children)
    ensures m.Content() == Grow16(n.Content())
  {
    m := new Node48();
    forall i | 0 <= i < n.num { m.children[i] := Some(n.children[i]); }
    ghost var ks := n.keys[..n.num];
    for i := 0 to n.num
      invariant m.Valid()
      invariant m.children[..] == SlotsFrom(n.children[..n.num], 48)
      invariant n.Valid() && n.keys[..n.num] == ks
      invariant forall c | 0 <= c < 256 :: m.keys[c] == if IndexOf(ks, c) < i then IndexOf(ks, c) + 1 else 0
    {
      IndexOfAscending(ks, i);
      forall c | 0 <= c < 256 && c != ks[i] ensures IndexOf(ks, c) != i {}
      m.keys[n.keys[i]] := i + 1;
    }
    m.num := n.num;
    assert m.keys[..] == IndexFrom(ks);
  }

  /** The new NODE256 of add_child48. */
  method Grow48Node<T(0)>(m: Node48<T>) returns (f: Node256<T>)
    requires m.Valid()
    ensures f.Valid() && fresh(f) && fresh(f.children)
    ensures f.Content() == Grow48(m.Content())
  {
    f := new Node256();
    for i := 0 to 256
      invariant f.Valid() && m.Valid() && m.Content() == old(m.Content())
      invariant forall c | 0 <= c < i :: f.children[c] == Find(m.Content(), c)
      invariant forall c | i <= c < 256 :: f.children[c] == None
    {
      if m.keys[i] != 0 {
        f.children[i] := m.children[m.keys[i] - 1];
      }
    }
    f.num := m.num;
  }

  /** One step of the loops that copy the children in byte order. */
  lemma TakeByte<T>(b: Body<T>, bytes: seq<nat>, kids: seq<T>, pos: nat, c: nat)
    requires Shaped(b) && Ascending(bytes) && (forall k | k in bytes :: k < 256 && Find(b, k).Some?)
    requires kids == KidsOf(b, bytes)
    requires c < 256 && pos <= |bytes| && bytes[pos..] == ListFrom(b, c)
    ensures b.B256? ==> Find(b, c) == b.slots[c]
    ensures b.B48? ==> Find(b, c) == if b.index[c] != 0 then b.slots[b.index[c] - 1] else None
    ensures if Find(b, c).Some? then
              && pos < |bytes| == |kids| && bytes[pos] == c && Find(b, c) == Some(kids[pos])
              && bytes[pos + 1..] == ListFrom(b, c + 1)
              && IndexOf(bytes, c) == pos && forall d | d != c :: IndexOf(bytes, d) != pos
            else bytes[pos..] == ListFrom(b, c + 1)
  {
    hide ListFrom, Find, IndexOf, Ascending, KidsOf;
    ListStep(b, c);
    FindSlot(b, c);
    if Find(b, c).Some? {
      assert bytes[pos..][0] == bytes[pos] && bytes[pos..][1..] == bytes[pos + 1..];
      KidsAre(b, bytes, pos);
      IndexOfAscending(bytes, pos);
      IndexOfOthers(bytes, pos);
    }
  }

  /** The loop of remove_child256 that fills the slots of a new NODE48 in byte order. */
  method FillSlots<T(0)>(slots: array<Option<T>>, m: Node48<T>, ghost b: Body<T>, ghost bytes: seq<nat>,
                     ghost kids: seq<T>)
    requires Shaped(b) && b.B256? && b.slots == slots[..] && slots.Length == 256 && slots != m.children
    requires Apart(slots, m.keys)
    requires bytes == ListFrom(b, 0) && |bytes| <= 48 && Ascending(bytes)
    requires (forall k | k in bytes :: k < 256 && Find(b, k).Some?) && kids == KidsOf(b, bytes)
    requires m.Valid() && (forall c | 0 <= c < 256 :: m.keys[c] == 0) && forall p | 0 <= p < 48 :: m.children[p] == None
    modifies m.keys, m.children
    ensures m.Valid() && |kids| == |bytes|
    ensures forall p | 0 <= p < 48 :: m.children[p] == if p < |bytes| then Some(kids[p]) else None
    ensures forall c | 0 <= c < 256 :: m.keys[c] == if IndexOf(bytes, c) < |bytes| then IndexOf(bytes, c) + 1 else 0
  {
    hide ListFrom, Find, IndexOf, Ascending, KidsOf, Shaped;
    KidsLen(b, bytes);
    var pos := 0;
    for i := 0 to 256
      invariant m.Valid() && slots[..] == old(slots[..])
      invariant pos <= |bytes| && bytes[pos..] == ListFrom(b, i)
      invariant forall p | 0 <= p < 48 :: m.children[p] == if p < pos then Some(kids[p]) else None
      invariant forall c | 0 <= c < 256 :: m.keys[c] == if IndexOf(bytes, c) < pos then IndexOf(bytes, c) + 1 else 0
    {
      TakeByte(b, bytes, kids, pos, i);
      if slots[i].Some? {
        m.children[pos] := slots[i];
        m.keys[i] := pos + 1;
        pos := pos + 1;
      }
    }
    ListEnd(b);
  }

  /** The new NODE48 of remove_child256. */
  method Shrink256Node<T(0)>(f: Node256<T>) returns (m: Node48<T>)
    requires f.Valid() && f.num == |ListFrom(f.Content(), 0)| <= 48
    ensures m.Valid() && fresh(m) && fresh(m.keys) && fresh(m.children)
    ensures m.Content() == Packed(f.Content())
  {
    hide ListFrom, Find, IndexOf, Ascending, KidsOf, Packed;
    ghost var b := f.Content();
    ListFromIs(b, 0);
    m := new Node48();
    FillSlots(f.children, m, b, ListFrom(b, 0), KidsOf(b, ListFrom(b, 0)));
    m.num := f.num;
    PackedIs(b, ListFrom(b, 0), m.keys[..], m.children[..]);
  }

  lemma ListStep<T>(b: Body<T>, c: nat)
    requires Shaped(b) && c < 256
    ensures ListFrom(b, c) == (if Find(b, c).Some? then [c] else []) + ListFrom(b, c + 1)
  {
  }

  lemma ListEnd<T>(b: Body<T>)
    requires Shaped(b)
    ensures ListFrom(b, 256) == []
  {
  }

  lemma FindSlot<T>(b: Body<T>, c: nat)
    requires Shaped(b) && c < 256
    ensures b.B256? ==> Find(b, c) == b.slots[c]
    ensures b.B48? ==> Find(b, c) == if b.index[c] != 0 then b.slots[b.index[c] - 1] else None
  {
  }

  lemma IndexOfOthers(keys: seq<nat>, i: nat)
    requires i < |keys| && IndexOf(keys, keys[i]) == i
    ensures forall c | c != keys[i] :: IndexOf(keys, c) != i
  {
  }

  lemma PackedIs<T>(b: Body<T>, bytes: seq<nat>, index: seq<nat>, slots: seq<Option<T>>)
    requires Shaped(b) && bytes == ListFrom(b, 0) && |bytes| <= 48 && |index| == 256 && |slots| == 48
    requires forall k | k in bytes :: k < 256 && Find(b, k).Some?
    requires forall p | 0 <= p < 48 :: slots[p] == if p < |bytes| then Some(KidsOf(b, bytes)[p]) else None
    requires forall c | 0 <= c < 256 :: index[c] == if IndexOf(bytes, c) < |bytes| then IndexOf(bytes, c) + 1 else 0
    ensures Packed(b) == B48(|bytes|, index, slots)
  {
    hide ListFrom, Find, IndexOf;
    assert index == IndexFrom(bytes);
    assert slots == SlotsFrom(KidsOf(b, bytes), 48);
  }

  lemma KidsLen<T>(b: Body<T>, keys: seq<nat>)
    requires Shaped(b) && (forall k | k in keys :: k < 256 && Find(b, k).Some?)
    ensures |KidsOf(b, keys)| == |keys|
  {
  }

  lemma KidsAre<T>(b: Body<T>, keys: seq<nat>, p: nat)
    requires Shaped(b) && (forall k | k in keys :: k < 256 && Find(b, k).Some?) && p < |keys|
    ensures |KidsOf(b, keys)| == |keys|
    ensures keys[p] < 256 && Find(b, keys[p]) == Some(KidsOf(b, keys)[p])
  {
    hide Find;
    assert keys[p] in keys;
  }

  /** The loop of remove_child48 that copies the children in byte order. */
  method FillSorted<T(0)>(m: Node48<T>, n: SmallNode<T>, ghost b: Body<T>, ghost bytes: seq<nat>, ghost kids: seq<T>)
    requires m.Valid() && b == m.Content() && bytes == ListFrom(b, 0) && Ascending(bytes)
    requires (forall k | k in bytes :: k < 256 && Find(b, k).Some?) && kids == KidsOf(b, bytes)
    requires forall c | 0 <= c < 256 && m.keys[c] != 0 :: m.children[m.keys[c] - 1].Some?
    requires n.Valid() && n.cap == 16 && |bytes| <= 16 && n.num == 0
    requires Apart(n.keys, m.keys) && Apart(n.keys, m.children) && Apart(n.children, m.keys)
    requires Apart(n.children, m.children)
    modifies n.keys, n.children
    ensures n.Valid() && |kids| == |bytes|
    ensures n.keys[..|bytes|] == bytes && n.children[..|bytes|] == kids
  {
    hide ListFrom, Find, IndexOf, Ascending, KidsOf, Shaped;
    KidsLen(b, bytes);
    var child := 0;
    for i := 0 to 256
      invariant n.Valid()
      invariant child <= |bytes| && bytes[child..] == ListFrom(b, i)
      invariant n.keys[..child] == bytes[..child] && n.children[..child] == kids[..child]
    {
      TakeByte(b, bytes, kids, child, i);
      var pos := m.keys[i];
      if pos != 0 {
        n.keys[child] := i;
        n.children[child] := m.children[pos - 1].value;
        child := child + 1;
      }
    }
    ListEnd(b);
  }

  /** The new NODE16 of remove_child48. */
  method Shrink48Node<T(0)>(m: Node48<T>) returns (n: SmallNode<T>)
    requires m.Valid() && m.num == |ListFrom(m.Content(), 0)| <= 16
    requires forall c | 0 <= c < 256 && m.keys[c] != 0 :: m.children[m.keys[c] - 1].Some?
    ensures n.Valid() && n.cap == 16 && fresh(n) && fresh(n.keys) && fresh(n.children)
    ensures n.Content() == Sorted(m.Content())
  {
    hide ListFrom, Find, IndexOf, Ascending, KidsOf;
    ghost var b := m.Content();
    ListFromIs(b, 0);
    n := new SmallNode(16, [], []);
    FillSorted(m, n, b, ListFrom(b, 0), KidsOf(b, ListFrom(b, 0)));
    n.num := m.num;
  }

  // ------------------------------------------------------------------ what replaces *ref

  /** add_child: changes the node in place, or puts a larger copy in its place. */
  method AddChild<T(0)>(r: Ref<T>, c: nat, x: T) returns (r': Ref<T>)
    requires r.Valid() && BodyInv(r.Content()) && Ascii(c) && Find(r.Content(), c).None?
    modifies r.Repr()
    ensures r'.Valid() && r'.Content() == Add(old(r.Content()), c, x)
    ensures r' == r || fresh(r'.Repr())
  {
    match r
    case Small(n) => r' := AddChildSmall(n, c, x);
    case Mid(m) => r' := AddChild48(m, c, x);
    case Full(f) =>
      f.num := f.num + 1;
      f.children[c] := Some(x);
      r' := r;
  }

  method AddChildSmall<T(0)>(n: SmallNode<T>, c: nat, x: T) returns (r': Ref<T>)
    requires n.Valid() && BodyInv(n.Content()) && Ascii(c)
    modifies n, n.keys, n.children
    ensures r'.Valid() && r'.Content() == Add(old(n.Content()), c, x)
    ensures r' == Small(n) || fresh(r'.Repr())
  {
    hide Ascending, Bytes, IndexInv, Find, Place, InsertAt, Grow16;
    if n.num < n.cap {
      n.AddChild(c, x);
      r' := Small(n);
    } else if n.cap == 4 {
      var bigger := new SmallNode(16, n.keys[..n.num], n.children[..n.num]);
      bigger.AddChild(c, x);
      r' := Small(bigger);
    } else {
      SmallFacts(n.Content());
      var m := Grow16Node(n);
      Grow16Free(n.Content());
      m.AddChild(c, x);
      r' := Mid(m);
    }
  }

  lemma SmallFacts<T>(b: Body<T>)
    requires BodyInv(b) && (b.B4? || b.B16?)
    ensures Ascending(b.keys) && forall i | 0 <= i < |b.keys| :: b.keys[i] < 256
  {
    hide BodyInv, Find, Ascending;
    KeysHaveChildren(b);
    forall i | 0 <= i < |b.keys| ensures b.keys[i] < 256 { assert b.keys[i] in b.keys; }
  }

  lemma Grow16Free<T>(b: Body<T>)
    requires BodyInv(b) && b.B16? && Shaped(b) && |b.keys| <= 16
    ensures Grow16(b).num < 48 && FirstFree(Grow16(b).slots) < 48
  {
    hide Bytes, IndexInv, Find, Ascending;
    Grow16Same(b);
    FreeSlotExists(Grow16(b));
  }

  method AddChild48<T(0)>(m: Node48<T>, c: nat, x: T) returns (r': Ref<T>)
    requires m.Valid() && BodyInv(m.Content()) && Ascii(c)
    modifies m, m.keys, m.children
    ensures r'.Valid() && r'.Content() == Add(old(m.Content()), c, x)
    ensures r' == Mid(m) || fresh(r'.Repr())
  {
    hide Bytes, IndexInv, Find, Grow48;
    if m.num < 48 {
      FreeSlotExists(m.Content());
      m.AddChild(c, x);
      r' := Mid(m);
    } else {
      var f := Grow48Node(m);
      f.num := f.num + 1;
      f.children[c] := Some(x);
      r' := Full(f);
    }
  }

  /** The array part of remove_child: changes the node in place, or puts a smaller copy in its place. */
  method RemoveChild<T(0)>(r: Ref<T>, c: nat) returns (r': Ref<T>)
    requires r.Valid() && BodyInv(r.Content()) && c < 256 && Find(r.Content(), c).Some?
    modifies r.Repr()
    ensures Num(old(r.Content())) > 0
    ensures r'.Valid() && r'.Content() == Remove(old(r.Content()), c)
    ensures r' == r || fresh(r'.Repr())
  {
    hide Bytes, IndexInv, Ascending, ListFrom, Packed, Sorted;
    RemoveRemoves(r.Content(), c);
    match r
    case Small(n) =>
      var pos := n.FindChild(c);
      n.RemoveChild(pos);
      r' := r;
      if n.cap == 16 && n.num == 3 {
        var smaller := new SmallNode(4, n.keys[..n.num], n.children[..n.num]);
        r' := Small(smaller);
      }
    case Mid(m) => r' := RemoveChild48(m, c);
    case Full(f) => r' := RemoveChild256(f, c);
  }

  method RemoveChild48<T(0)>(m: Node48<T>, c: nat) returns (r': Ref<T>)
    requires m.Valid() && BodyInv(m.Content()) && c < 256 && m.keys[c] != 0 && m.num > 0
    modifies m, m.keys, m.children
    ensures r'.Valid() && r'.Content() == Remove48(old(m.Content()), c)
    ensures r' == Mid(m) || fresh(r'.Repr())
  {
    hide Bytes, IndexInv, ListFrom, Sorted, BodyInv;
    FreeSlot(m.Content(), c);
    m.RemoveChild(c);
    r' := Mid(m);
    if m.num == 12 {
      ListFacts(m.Content());
      UsedSlotsAreFull(m.Content());
      var n := Shrink48Node(m);
      r' := Small(n);
    }
  }

  lemma UsedSlotsAreFull<T>(b: Body<T>)
    requires BodyInv(b) && b.B48?
    ensures Shaped(b) && forall c | 0 <= c < 256 && b.index[c] != 0 :: b.slots[b.index[c] - 1].Some?
  {
  }

  method RemoveChild256<T(0)>(f: Node256<T>, c: nat) returns (r': Ref<T>)
    requires f.Valid() && BodyInv(f.Content()) && c < 256 && f.children[c].Some? && f.num > 0
    modifies f, f.children
    ensures r'.Valid() && r'.Content() == Remove256(old(f.Content()), c)
    ensures r' == Full(f) || fresh(r'.Repr())
  {
    hide Bytes, IndexInv, ListFrom, Packed, BodyInv;
    ClearSlot(f.Content(), c);
    f.children[c] := None;
    f.num := f.num - 1;
    r' := Full(f);
    if f.num == 37 {
      ListFacts(f.Content());
      var m := Shrink256Node(f);
      r' := Mid(m);
    }
  }

  lemma ClearSlot<T>(b: Body<T>, c: nat)
    requires BodyInv(b) && b.B256? && Shaped(b) && c < 256 && b.slots[c].Some? && b.num > 0
    ensures BodyInv(B256(b.num - 1, b.slots[c := None]))
  {
    hide Bytes;
    Remove256Clears(b, c);
  }
}
