/**
  The children of one inner node of the adaptive radix tree, in its four layouts. Whatever the
  layout, they are a partial map from byte to child; adding and removing a child grow and shrink the
  layout with hysteresis and change nothing else of the map.
 */
module ArtBody {
  import opened Basics

  type Byte = n: nat | n < 256

  /** Bytes for which the signed and the unsigned comparisons of the code agree. */
  predicate Ascii(c: nat) {
    c < 128
  }

  /** NODE4, NODE16, NODE48 and NODE256; of the first two only the occupied part of the arrays. */
  datatype Body<+T> =
    | B4(keys: seq<nat>, kids: seq<T>)
    | B16(keys: seq<nat>, kids: seq<T>)
    | B48(num: nat, index: seq<nat>, slots: seq<Option<T>>)
    | B256(num: nat, slots: seq<Option<T>>)

  function Num<T>(b: Body<T>): nat {
    if b.B4? || b.B16? then |b.keys| else b.num
  }

  /** Position of a byte in the key array, or its length. */
  function IndexOf(keys: seq<nat>, c: nat): (i: nat)
    ensures i <= |keys|
    ensures i < |keys| ==> keys[i] == c
    ensures forall j | 0 <= j < i :: keys[j] != c
  {
    if keys == [] then 0 else if keys[0] == c then 0 else 1 + IndexOf(keys[1..], c)
  }

  /** The sizes of the arrays, which find_child relies on. */
  predicate Shaped<T>(b: Body<T>) {
    match b
    case B4(keys, kids) => |keys| == |kids|
    case B16(keys, kids) => |keys| == |kids|
    case B48(_, index, slots) => |index| == 256 && |slots| == 48 && forall c | 0 <= c < 256 :: index[c] <= 48
    case B256(_, slots) => |slots| == 256
  }

  /** find_child. */
  function Find<T>(b: Body<T>, c: nat): Option<T>
    requires Shaped(b) && c < 256
  {
    match b
    case B4(keys, kids) => var i := IndexOf(keys, c); if i < |keys| then Some(kids[i]) else None
    case B16(keys, kids) => var i := IndexOf(keys, c); if i < |keys| then Some(kids[i]) else None
    case B48(_, index, slots) => if index[c] != 0 then slots[index[c] - 1] else None
    case B256(_, slots) => slots[c]
  }

  ghost predicate Ascending(s: seq<nat>) {
    forall i, j | 0 <= i < j < |s| :: s[i] < s[j]
  }

  /** The bytes that have a child. */
  ghost function Bytes<T>(b: Body<T>): set<nat>
    requires Shaped(b)
  {
    set c: nat | c < 256 && Find(b, c).Some?
  }

  /** Slots and byte index of a NODE48 point at each other. */
  ghost predicate IndexInv<T>(index: seq<nat>, slots: seq<Option<T>>)
    requires |index| == 256 && |slots| == 48 && forall c | 0 <= c < 256 :: index[c] <= 48
  {
    && (forall c | 0 <= c < 256 && index[c] != 0 :: slots[index[c] - 1].Some?)
    && (forall c, d | 0 <= c < d < 256 && index[c] != 0 :: index[c] != index[d])
    && (forall p | 0 <= p < 48 && slots[p].Some? :: exists c :: 0 <= c < 256 && index[c] == p + 1)
  }

  ghost predicate BodyInv<T>(b: Body<T>) {
    && Shaped(b)
    && Num(b) == |Bytes(b)|
    && (forall c | c in Bytes(b) :: Ascii(c))
    && match b
       case B4(keys, _) => |keys| <= 4 && Ascending(keys) && forall k | k in keys :: k < 256
       case B16(keys, _) => |keys| <= 16 && Ascending(keys) && forall k | k in keys :: k < 256
       case B48(num, index, slots) => num <= 48 && IndexInv(index, slots)
       case B256(_, _) => true
  }

  /** The layout a node of that many children may have, with hysteresis at the borders. */
  predicate InRange<T>(b: Body<T>) {
    match b
    case B4(keys, _) => 2 <= |keys| <= 4
    case B16(keys, _) => 4 <= |keys| <= 16
    case B48(num, _, _) => 13 <= num <= 48
    case B256(num, _) => 38 <= num <= 256
  }

  // ------------------------------------------------------------------ sorted key arrays

  /** Where a new key goes: the first greater one, or the end. */
  function Place(keys: seq<nat>, c: nat): (i: nat)
    ensures i <= |keys|
    ensures forall j | 0 <= j < i :: keys[j] <= c
    ensures i < |keys| ==> c < keys[i]
  {
    if keys == [] || c < keys[0] then 0 else 1 + Place(keys[1..], c)
  }

  function InsertAt<T>(s: seq<T>, i: nat, x: T): (r: seq<T>)
    requires i <= |s|
    ensures |r| == |s| + 1
    ensures forall j {:trigger r[j]} | 0 <= j < |r| :: r[j] == if j < i then s[j] else if j == i then x else s[j - 1]
  {
    s[..i] + [x] + s[i..]
  }

  function RemoveAt<T>(s: seq<T>, i: nat): (r: seq<T>)
    requires i < |s|
    ensures |r| == |s| - 1
    ensures forall j | 0 <= j < |r| :: r[j] == s[if j < i then j else j + 1]
  {
    s[..i] + s[i + 1..]
  }

  lemma IndexOfAscending(keys: seq<nat>, i: nat)
    requires Ascending(keys) && i < |keys|
    ensures IndexOf(keys, keys[i]) == i
  {
  }

  lemma ToSetSnoc(s: seq<nat>, x: nat)
    ensures ToSet(s + [x]) == ToSet(s) + {x}
  {
  }

  lemma {:induction false} AscendingCount(keys: seq<nat>)
    requires Ascending(keys)
    ensures |ToSet(keys)| == |keys|
  {
    if keys != [] {
      var t, last := keys[..|keys| - 1], keys[|keys| - 1];
      AscendingCount(t);
      assert keys == t + [last];
      ToSetSnoc(t, last);
      assert last !in ToSet(t);
    }
  }

  /** A sorted array layout is sound as soon as its arrays match. */
  lemma SortedBodyInv<T>(b: Body<T>)
    requires b.B4? || b.B16?
    requires |b.keys| == |b.kids| && |b.keys| <= (if b.B4? then 4 else 16)
    requires Ascending(b.keys) && forall k | k in b.keys :: Ascii(k)
    ensures BodyInv(b) && Num(b) == |b.keys|
    ensures forall c | 0 <= c < 256 :: Find(b, c).Some? <==> c in b.keys
  {
    AscendingCount(b.keys);
    forall c | 0 <= c < 256 ensures Find(b, c).Some? <==> c in b.keys {
      if c in b.keys {
        var i :| 0 <= i < |b.keys| && b.keys[i] == c;
        IndexOfAscending(b.keys, i);
      }
    }
    assert Bytes(b) == ToSet(b.keys);
  }

  lemma InsertedKeys(keys: seq<nat>, c: nat)
    requires Ascending(keys) && c !in keys
    ensures var ks := InsertAt(keys, Place(keys, c), c);
            Ascending(ks) && forall d :: d in ks <==> d == c || d in keys
  {
    hide Place;
    var i := Place(keys, c);
    var ks := InsertAt(keys, i, c);
    assert forall j | 0 <= j < i :: keys[j] < c;
    assert forall j | i <= j < |keys| :: c < keys[j];
    InsertedElements(keys, i, c);
  }

  lemma InsertedElements(keys: seq<nat>, i: nat, c: nat)
    requires i <= |keys|
    ensures forall d :: d in InsertAt(keys, i, c) <==> d == c || d in keys
  {
  }

  lemma InsertSorted<T>(keys: seq<nat>, kids: seq<T>, c: nat, x: T)
    requires |keys| == |kids| && Ascending(keys) && c !in keys
    ensures var i := Place(keys, c);
            var ks, xs := InsertAt(keys, i, c), InsertAt(kids, i, x);
            && Ascending(ks) && |ks| == |xs| == |keys| + 1
            && (forall d :: d in ks <==> d == c || d in keys)
            && (forall d | d in ks :: xs[IndexOf(ks, d)] == if d == c then x else kids[IndexOf(keys, d)])
  {
    hide Ascending, Place, IndexOf;
    InsertedKeys(keys, c);
    var i := Place(keys, c);
    var ks, xs := InsertAt(keys, i, c), InsertAt(kids, i, x);
    forall d | d in ks ensures xs[IndexOf(ks, d)] == if d == c then x else kids[IndexOf(keys, d)] {
      var j := if d == c then i else if IndexOf(keys, d) < i then IndexOf(keys, d) else IndexOf(keys, d) + 1;
      assert ks[j] == d;
      IndexOfAscending(ks, j);
    }
  }

  lemma RemovedKeys(keys: seq<nat>, i: nat)
    requires Ascending(keys) && i < |keys|
    ensures Ascending(RemoveAt(keys, i)) && forall d :: d in RemoveAt(keys, i) <==> d != keys[i] && d in keys
  {
  }

  lemma RemoveSorted<T>(keys: seq<nat>, kids: seq<T>, i: nat)
    requires |keys| == |kids| && Ascending(keys) && i < |keys|
    ensures var ks, xs := RemoveAt(keys, i), RemoveAt(kids, i);
            && Ascending(ks) && |ks| == |xs| == |keys| - 1
            && (forall d :: d in ks <==> d != keys[i] && d in keys)
            && (forall d | d in ks :: xs[IndexOf(ks, d)] == kids[IndexOf(keys, d)])
  {
    hide Ascending, IndexOf, RemoveAt;
    RemovedKeys(keys, i);
    var ks, xs := RemoveAt(keys, i), RemoveAt(kids, i);
    forall d | d in ks ensures xs[IndexOf(ks, d)] == kids[IndexOf(keys, d)] {
      var j := IndexOf(ks, d);
      var j' := if j < i then j else j + 1;
      assert keys[j'] == d;
      IndexOfAscending(keys, j');
    }
  }

  // ------------------------------------------------------------------ adding a child

  function Repeat<T>(x: T, n: nat): seq<T> {
    seq(n, i => x)
  }

  /** A NODE48's index built from the key array of a NODE16. */
  function IndexFrom(keys: seq<nat>): (index: seq<nat>)
    ensures |index| == 256
  {
    seq(256, c requires 0 <= c < 256 => var i := IndexOf(keys, c); if i < |keys| then i + 1 else 0)
  }

  function SlotsFrom<T>(kids: seq<T>, n: nat): seq<Option<T>>
    requires |kids| <= n
  {
    seq(n, p requires 0 <= p < n => if p < |kids| then Some(kids[p]) else None)
  }

  function FirstFree<T>(slots: seq<Option<T>>): (p: nat)
    ensures p <= |slots|
    ensures p < |slots| ==> slots[p].None?
    ensures forall q | 0 <= q < p :: slots[q].Some?
  {
    if slots == [] || slots[0].None? then 0 else 1 + FirstFree(slots[1..])
  }

  function Add256<T>(b: Body<T>, c: nat, x: T): Body<T>
    requires b.B256? && Shaped(b) && c < 256
  {
    B256(b.num + 1, b.slots[c := Some(x)])
  }

  function Grow48<T>(b: Body<T>): Body<T>
    requires b.B48? && Shaped(b)
  {
    B256(b.num, seq(256, c requires 0 <= c < 256 => Find(b, c)))
  }

  function Add48<T>(b: Body<T>, c: nat, x: T): Body<T>
    requires b.B48? && Shaped(b) && c < 256
  {
    var p := FirstFree(b.slots);
    if b.num < 48 && p < 48 then B48(b.num + 1, b.index[c := p + 1], b.slots[p := Some(x)])
    else Add256(Grow48(b), c, x)
  }

  function Grow16<T>(b: Body<T>): Body<T>
    requires b.B16? && Shaped(b) && |b.keys| <= 16
  {
    B48(|b.keys|, IndexFrom(b.keys), SlotsFrom(b.kids, 48))
  }

  function Add16<T>(b: Body<T>, c: nat, x: T): Body<T>
    requires b.B16? && Shaped(b) && |b.keys| <= 16 && c < 256
  {
    if |b.keys| < 16 then
      var i := Place(b.keys, c); B16(InsertAt(b.keys, i, c), InsertAt(b.kids, i, x))
    else Add48(Grow16(b), c, x)
  }

  function Add4<T>(b: Body<T>, c: nat, x: T): Body<T>
    requires b.B4? && Shaped(b) && |b.keys| <= 4 && c < 256
  {
    if |b.keys| < 4 then
      var i := Place(b.keys, c); B4(InsertAt(b.keys, i, c), InsertAt(b.kids, i, x))
    else Add16(B16(b.keys, b.kids), c, x)
  }

  /** add_child. */
  function Add<T>(b: Body<T>, c: nat, x: T): Body<T>
    requires Shaped(b) && c < 256 && (b.B4? ==> |b.keys| <= 4) && (b.B16? ==> |b.keys| <= 16)
  {
    match b
    case B4(_, _) => Add4(b, c, x)
    case B16(_, _) => Add16(b, c, x)
    case B48(_, _, _) => Add48(b, c, x)
    case B256(_, _) => Add256(b, c, x)
  }

  /** `b'` is `b` with one more child. */
  ghost predicate Added<T>(b: Body<T>, b': Body<T>, c: nat, x: T)
    requires Shaped(b)
  {
    && BodyInv(b') && Num(b') == Num(b) + 1
    && forall d | 0 <= d < 256 :: Find(b', d) == if d == c then Some(x) else Find(b, d)
  }

  ghost predicate SameKids<T>(b: Body<T>, b': Body<T>)
    requires Shaped(b)
  {
    BodyInv(b') && Num(b') == Num(b) && forall d | 0 <= d < 256 :: Find(b', d) == Find(b, d)
  }

  /** The count of one more byte. */
  lemma CountAdded<T>(b: Body<T>, b': Body<T>, c: nat)
    requires Shaped(b) && Shaped(b') && c < 256 && Find(b, c).None?
    requires forall d | 0 <= d < 256 :: Find(b', d).Some? <==> d == c || Find(b, d).Some?
    ensures Bytes(b') == Bytes(b) + {c} && |Bytes(b')| == |Bytes(b)| + 1
  {
    assert Bytes(b') == Bytes(b) + {c};
  }

  lemma AddSorted<T>(b: Body<T>, b': Body<T>, c: nat, x: T)
    requires BodyInv(b) && (b.B4? || b.B16?) && Ascii(c) && Find(b, c).None?
    requires (b'.B4? <==> b.B4?) && (b'.B16? <==> b.B16?) && |b.keys| < (if b.B4? then 4 else 16)
    requires b'.keys == InsertAt(b.keys, Place(b.keys, c), c) && b'.kids == InsertAt(b.kids, Place(b.keys, c), x)
    ensures Added(b, b', c, x)
  {
    hide BodyInv, Ascending, Find, IndexOf, Place, InsertAt;
    KeysHaveChildren(b);
    InsertSorted(b.keys, b.kids, c, x);
    SortedBodyInv(b');
    forall d | 0 <= d < 256 ensures Find(b', d) == if d == c then Some(x) else Find(b, d) {
      FindAt(b, d);
      FindAt(b', d);
    }
  }

  lemma KeysHaveChildren<T>(b: Body<T>)
    requires BodyInv(b) && (b.B4? || b.B16?)
    ensures Shaped(b) && Ascending(b.keys) && forall k | k in b.keys :: Ascii(k)
    ensures Num(b) == |b.keys| == |b.kids|
    ensures forall c :: c in b.keys <==> 0 <= c < 256 && Find(b, c).Some?
  {
  }

  lemma Add256Adds<T>(b: Body<T>, c: nat, x: T)
    requires BodyInv(b) && b.B256? && Ascii(c) && Find(b, c).None?
    ensures Added(b, Add256(b, c, x), c, x)
  {
    CountAdded(b, Add256(b, c, x), c);
  }

  lemma Grow48Same<T>(b: Body<T>)
    requires BodyInv(b) && b.B48?
    ensures SameKids(b, Grow48(b))
  {
    assert Bytes(Grow48(b)) == Bytes(b);
  }

  ghost function Below(n: nat): (s: set<nat>)
    ensures |s| == n && forall p: nat :: p in s <==> p < n
  {
    if n == 0 then {} else Below(n - 1) + {n - 1}
  }

  ghost function UsedSlots<T>(slots: seq<Option<T>>): set<nat> {
    set p: nat | p < |slots| && slots[p].Some?
  }

  ghost function UsedBytes(index: seq<nat>): set<nat> {
    set c: nat | c < |index| && index[c] != 0
  }

  /** As many slots as bytes are in use. */
  lemma SlotCount<T>(index: seq<nat>, slots: seq<Option<T>>)
    requires |index| == 256 && |slots| == 48 && (forall c | 0 <= c < 256 :: index[c] <= 48) && IndexInv(index, slots)
    ensures |UsedSlots(slots)| == |UsedBytes(index)|
  {
    ImageCount(UsedBytes(index), index);
    assert UsedSlots(slots) == Image(UsedBytes(index), index);
  }

  ghost function Image(cs: set<nat>, index: seq<nat>): set<nat>
    requires forall c | c in cs :: c < |index| && index[c] > 0
  {
    set c | c in cs :: index[c] - 1
  }

  lemma {:induction false} ImageCount(cs: set<nat>, index: seq<nat>)
    requires forall c | c in cs :: c < |index| && index[c] > 0
    requires forall c, d | c in cs && d in cs && c != d :: index[c] != index[d]
    ensures |Image(cs, index)| == |cs|
    decreases |cs|
  {
    if cs != {} {
      var c :| c in cs;
      var rest := cs - {c};
      ImageCount(rest, index);
      assert Image(cs, index) == Image(rest, index) + {index[c] - 1};
    }
  }

  /** The search for a free slot ends within the array. */
  lemma FreeSlotExists<T>(b: Body<T>)
    requires BodyInv(b) && b.B48? && b.num < 48
    ensures FirstFree(b.slots) < 48
  {
    SlotCount(b.index, b.slots);
    assert Bytes(b) == UsedBytes(b.index);
    assert FirstFree(b.slots) == 48 ==> UsedSlots(b.slots) == Below(48);
  }

  lemma Add48Adds<T>(b: Body<T>, c: nat, x: T)
    requires BodyInv(b) && b.B48? && Ascii(c) && Find(b, c).None?
    ensures Added(b, Add48(b, c, x), c, x)
  {
    hide Find, IndexInv, Ascending;
    if b.num < 48 {
      FreeSlotExists(b);
      TakeSlot(b, c, x, FirstFree(b.slots));
    } else {
      Grow48Same(b);
      Add256Adds(Grow48(b), c, x);
    }
  }

  /** Using a free slot for a new byte keeps slots and index pointing at each other. */
  lemma TakeSlot<T>(b: Body<T>, c: nat, x: T, p: nat)
    requires BodyInv(b) && b.B48? && b.num < 48 && Ascii(c) && Find(b, c).None? && p < 48 && b.slots[p].None?
    ensures Added(b, B48(b.num + 1, b.index[c := p + 1], b.slots[p := Some(x)]), c, x)
  {
    hide IndexInv, Bytes, Shaped;
    NoIndex(b, c);
    var b' := B48(b.num + 1, b.index[c := p + 1], b.slots[p := Some(x)]);
    TakeSlotIndex(b.index, b.slots, c, x, p);
    TakeSlotFinds(b, c, x, p);
    hide Find;
    CountAdded(b, b', c);
  }

  lemma NoIndex<T>(b: Body<T>, c: nat)
    requires BodyInv(b) && b.B48? && c < 256 && Find(b, c).None?
    ensures b.index[c] == 0
    ensures |b.index| == 256 && |b.slots| == 48 && forall d | 0 <= d < 256 :: b.index[d] <= 48
  {
  }

  lemma TakeSlotFinds<T>(b: Body<T>, c: nat, x: T, p: nat)
    requires Shaped(b) && b.B48? && IndexInv(b.index, b.slots) && c < 256 && b.index[c] == 0 && p < 48
    requires b.slots[p].None?
    ensures var b' := B48(b.num + 1, b.index[c := p + 1], b.slots[p := Some(x)]);
            Shaped(b') && forall d | 0 <= d < 256 :: Find(b', d) == if d == c then Some(x) else Find(b, d)
  {
  }

  lemma TakeSlotIndex<T>(index: seq<nat>, slots: seq<Option<T>>, c: nat, x: T, p: nat)
    requires |index| == 256 && |slots| == 48 && (forall c | 0 <= c < 256 :: index[c] <= 48) && IndexInv(index, slots)
    requires c < 256 && index[c] == 0 && p < 48 && slots[p].None?
    ensures IndexInv(index[c := p + 1], slots[p := Some(x)])
  {
    var index', slots' := index[c := p + 1], slots[p := Some(x)];
    forall q | 0 <= q < 48 && slots'[q].Some? ensures exists d :: 0 <= d < 256 && index'[d] == q + 1 {
      if q == p {
        assert index'[c] == p + 1;
      } else {
        var d :| 0 <= d < 256 && index[d] == q + 1;
        assert index'[d] == q + 1;
      }
    }
  }

  lemma Grow16Same<T>(b: Body<T>)
    requires BodyInv(b) && b.B16?
    ensures SameKids(b, Grow16(b))
  {
    hide BodyInv, IndexInv, Find, Ascending, IndexFrom, SlotsFrom, Shaped;
    KeysHaveChildren(b);
    BodyFacts(b);
    Grow16Shaped(b);
    var b' := Grow16(b);
    PackedIndex(b.keys, b.kids);
    forall c | 0 <= c < 256 ensures Find(b', c) == Find(b, c) {
      PackedFindsOne(b.keys, b.kids, c);
      FindAt(b, c);
      FindAt(B16(b.keys, b.kids), c);
    }
    assert Bytes(b') == Bytes(b);
    Body48Inv(b');
  }

  lemma Grow16Shaped<T>(b: Body<T>)
    requires BodyInv(b) && b.B16?
    ensures Shaped(b) && |b.keys| <= 16 && Shaped(Grow16(b))
    ensures Grow16(b) == B48(|b.keys|, IndexFrom(b.keys), SlotsFrom(b.kids, 48))
  {
  }

  lemma Grow4Same<T>(b: Body<T>)
    requires BodyInv(b) && b.B4?
    ensures SameKids(b, B16(b.keys, b.kids))
  {
    assert Bytes(B16(b.keys, b.kids)) == Bytes(b);
  }

  /** Adding a child adds exactly one pair to the map, whichever layouts it passes through. */
  lemma AddAdds<T>(b: Body<T>, c: nat, x: T)
    requires BodyInv(b) && Ascii(c) && Find(b, c).None?
    ensures Added(b, Add(b, c, x), c, x)
    ensures InRange(b) ==> InRange(Add(b, c, x))
  {
    hide IndexInv, Bytes, Ascending;
    match b
    case B4(keys, kids) =>
      if |keys| < 4 {
        AddSorted(b, Add4(b, c, x), c, x);
      } else {
        Grow4Same(b);
        AddSorted(B16(keys, kids), Add16(B16(keys, kids), c, x), c, x);
      }
    case B16(keys, kids) =>
      if |keys| < 16 {
        AddSorted(b, Add16(b, c, x), c, x);
      } else {
        Grow16Same(b);
        Add48Adds(Grow16(b), c, x);
        FreeSlotOrGrow(Grow16(b), c, x);
      }
    case B48(_, _, _) =>
      Add48Adds(b, c, x);
      FreeSlotOrGrow(b, c, x);
    case B256(_, _) =>
      Add256Adds(b, c, x);
      BytesBound(Add256(b, c, x));
  }

  lemma FreeSlotOrGrow<T>(b: Body<T>, c: nat, x: T)
    requires BodyInv(b) && b.B48? && c < 256
    ensures if b.num < 48 then Add48(b, c, x).B48? else Add48(b, c, x).B256?
  {
    if b.num < 48 { FreeSlotExists(b); }
  }

  /** At most 128 bytes, so the 8-bit count of children does not wrap around. */
  lemma BytesBound<T>(b: Body<T>)
    requires BodyInv(b)
    ensures Num(b) <= 128
  {
    SubsetCount(Bytes(b), Below(128));
  }

  lemma {:induction false} SubsetCount(s: set<nat>, t: set<nat>)
    requires s <= t
    ensures |s| <= |t|
    decreases |s|
  {
    if s != {} {
      var x :| x in s;
      SubsetCount(s - {x}, t - {x});
    }
  }

  // ------------------------------------------------------------------ removing a child

  /** The bytes from `c` on that have a child, in ascending order. */
  function ListFrom<T>(b: Body<T>, c: nat): (s: seq<nat>)
    requires Shaped(b) && c <= 256
    decreases 256 - c
  {
    if c == 256 then [] else (if Find(b, c).Some? then [c] else []) + ListFrom(b, c + 1)
  }

  lemma ConsAscending(c: nat, t: seq<nat>)
    requires Ascending(t) && forall d | d in t :: c < d
    ensures Ascending([c] + t)
    ensures forall d :: d in [c] + t <==> d == c || d in t
  {
    assert forall i | 0 <= i < |t| :: t[i] in t;
    assert forall i | 0 < i < |t| + 1 :: ([c] + t)[i] == t[i - 1];
  }

  lemma {:induction false} ListFromIs<T>(b: Body<T>, c: nat)
    requires Shaped(b) && c <= 256
    ensures Ascending(ListFrom(b, c))
    ensures forall d :: d in ListFrom(b, c) <==> c <= d < 256 && Find(b, d).Some?
    decreases 256 - c
  {
    hide Find, Shaped;
    if c < 256 {
      ListFromIs(b, c + 1);
      var t := ListFrom(b, c + 1);
      hide Ascending;
      if Find(b, c).Some? {
        assert ListFrom(b, c) == [c] + t;
        ConsAscending(c, t);
      } else {
        assert ListFrom(b, c) == t;
      }
    }
  }

  function KidsOf<T>(b: Body<T>, keys: seq<nat>): seq<T>
    requires Shaped(b) && forall k | k in keys :: k < 256 && Find(b, k).Some?
  {
    seq(|keys|, i requires 0 <= i < |keys| => assert keys[i] in keys; Find(b, keys[i]).value)
  }

  /** A NODE16 or NODE4 with the children of `b` in byte order. */
  function Sorted<T>(b: Body<T>): Body<T>
    requires Shaped(b)
  {
    ListFromIs(b, 0);
    B16(ListFrom(b, 0), KidsOf(b, ListFrom(b, 0)))
  }

  /** A NODE48 with the children of `b`, slots filled in byte order. */
  function Packed<T>(b: Body<T>): Body<T>
    requires Shaped(b) && |ListFrom(b, 0)| <= 48
  {
    ListFromIs(b, 0);
    var keys := ListFrom(b, 0);
    B48(|keys|, IndexFrom(keys), SlotsFrom(KidsOf(b, keys), 48))
  }

  function Remove256<T>(b: Body<T>, c: nat): Body<T>
    requires b.B256? && Shaped(b) && c < 256 && b.num > 0
  {
    var b' := B256(b.num - 1, b.slots[c := None]);
    if b'.num == 37 && |ListFrom(b', 0)| <= 48 then Packed(b') else b'
  }

  function Remove48<T>(b: Body<T>, c: nat): Body<T>
    requires b.B48? && Shaped(b) && c < 256 && b.index[c] != 0 && b.num > 0
  {
    var b' := B48(b.num - 1, b.index[c := 0], b.slots[b.index[c] - 1 := None]);
    if b'.num == 12 then Sorted(b') else b'
  }

  function Remove16<T>(b: Body<T>, c: nat): Body<T>
    requires b.B16? && Shaped(b) && IndexOf(b.keys, c) < |b.keys|
  {
    var i := IndexOf(b.keys, c);
    var keys, kids := RemoveAt(b.keys, i), RemoveAt(b.kids, i);
    if |keys| == 3 then B4(keys, kids) else B16(keys, kids)
  }

  function Remove4<T>(b: Body<T>, c: nat): Body<T>
    requires b.B4? && Shaped(b) && IndexOf(b.keys, c) < |b.keys|
  {
    var i := IndexOf(b.keys, c);
    B4(RemoveAt(b.keys, i), RemoveAt(b.kids, i))
  }

  /** remove_child, up to the merging of a NODE4 with its last child. */
  function Remove<T>(b: Body<T>, c: nat): Body<T>
    requires Shaped(b) && c < 256 && Find(b, c).Some? && Num(b) > 0
  {
    match b
    case B4(_, _) => Remove4(b, c)
    case B16(_, _) => Remove16(b, c)
    case B48(_, _, _) => Remove48(b, c)
    case B256(_, _) => Remove256(b, c)
  }

  /** `b'` is `b` without one child. */
  ghost predicate Removed<T>(b: Body<T>, b': Body<T>, c: nat)
    requires Shaped(b)
  {
    && BodyInv(b') && Num(b') + 1 == Num(b)
    && forall d | 0 <= d < 256 :: Find(b', d) == if d == c then None else Find(b, d)
  }

  lemma CountRemoved<T>(b: Body<T>, b': Body<T>, c: nat)
    requires Shaped(b) && Shaped(b') && c < 256 && Find(b, c).Some?
    requires forall d | 0 <= d < 256 :: Find(b', d).Some? <==> d != c && Find(b, d).Some?
    ensures Bytes(b') == Bytes(b) - {c} && |Bytes(b')| + 1 == |Bytes(b)|
  {
  }

  lemma ListCount<T>(b: Body<T>)
    requires Shaped(b)
    ensures |ListFrom(b, 0)| == |Bytes(b)|
  {
    hide Find, Shaped, ListFrom, Ascending;
    ListFromIs(b, 0);
    AscendingCount(ListFrom(b, 0));
    assert ToSet(ListFrom(b, 0)) == Bytes(b);
  }

  /** The bytes listed are those with a child, and as many as the node says. */
  lemma ListFacts<T>(b: Body<T>)
    requires BodyInv(b)
    ensures Ascending(ListFrom(b, 0)) && |ListFrom(b, 0)| == Num(b)
    ensures forall d :: d in ListFrom(b, 0) <==> 0 <= d < 256 && Find(b, d).Some?
    ensures forall d | d in ListFrom(b, 0) :: Ascii(d)
  {
    hide BodyInv, ListFrom, Ascending, Shaped, Find, Num;
    BodyFacts(b);
    ListFromIs(b, 0);
    ListCount(b);
    assert forall d | d in ListFrom(b, 0) :: d in Bytes(b);
  }

  lemma BodyFacts<T>(b: Body<T>)
    requires BodyInv(b)
    ensures Shaped(b) && Num(b) == |Bytes(b)| && forall c | c in Bytes(b) :: Ascii(c)
  {
  }

  lemma Body48Inv<T>(b: Body<T>)
    requires b.B48? && Shaped(b) && IndexInv(b.index, b.slots) && b.num == |Bytes(b)| <= 48
    requires forall c | c in Bytes(b) :: Ascii(c)
    ensures BodyInv(b)
  {
  }

  lemma SortedSame<T>(b: Body<T>)
    requires BodyInv(b) && Num(b) <= 16
    ensures SameKids(b, Sorted(b))
  {
    ListFacts(b);
    var b' := Sorted(b);
    hide BodyInv, ListFrom, Num;
    assert b'.keys == ListFrom(b, 0);
    SortedBodyInv(b');
    SortedFinds(b, b'.keys);
    assert Num(b') == |b'.keys| by { CountOfSorted(b'); }
  }

  lemma CountOfSorted<T>(b: Body<T>)
    requires b.B16?
    ensures Num(b) == |b.keys|
  {
  }

  lemma SortedFinds<T>(b: Body<T>, keys: seq<nat>)
    requires Shaped(b) && Ascending(keys) && forall d :: d in keys <==> 0 <= d < 256 && Find(b, d).Some?
    ensures Shaped(B16(keys, KidsOf(b, keys)))
    ensures forall d | 0 <= d < 256 :: Find(B16(keys, KidsOf(b, keys)), d) == Find(b, d)
  {
  }

  lemma FindAt<T>(b: Body<T>, d: nat)
    requires Shaped(b) && (b.B4? || b.B16?) && d < 256
    ensures Find(b, d) == var i := IndexOf(b.keys, d); if i < |b.keys| then Some(b.kids[i]) else None
  {
  }

  lemma PackedSame<T>(b: Body<T>)
    requires BodyInv(b) && Num(b) <= 48
    ensures |ListFrom(b, 0)| == Num(b) && SameKids(b, Packed(b))
  {
    hide ListFrom, Find, IndexInv, IndexFrom, SlotsFrom, Shaped, KidsOf, BodyInv, Ascending;
    BodyFacts(b);
    ListFacts(b);
    var keys := ListFrom(b, 0);
    PackedFinds(b, keys);
    var b' := Packed(b);
    assert Bytes(b') == Bytes(b);
    Body48Inv(b');
  }

  /** A NODE48 filled from a list of bytes finds what the list says. */
  lemma PackedFinds<T>(b: Body<T>, keys: seq<nat>)
    requires Shaped(b) && Ascending(keys) && |keys| <= 48
    requires forall d :: d in keys <==> 0 <= d < 256 && Find(b, d).Some?
    ensures var b' := B48(|keys|, IndexFrom(keys), SlotsFrom(KidsOf(b, keys), 48));
            Shaped(b') && IndexInv(b'.index, b'.slots) && forall d | 0 <= d < 256 :: Find(b', d) == Find(b, d)
  {
    var kids := KidsOf(b, keys);
    var b' := B48(|keys|, IndexFrom(keys), SlotsFrom(kids, 48));
    PackedIndex(keys, kids);
    SortedFinds(b, keys);
    forall d | 0 <= d < 256 ensures Find(b', d) == Find(b, d) {
      PackedFindsOne(keys, kids, d);
    }
  }

  lemma PackedFindsOne<T>(keys: seq<nat>, kids: seq<T>, d: nat)
    requires |keys| == |kids| <= 48 && d < 256
    ensures var b' := B48(|keys|, IndexFrom(keys), SlotsFrom(kids, 48));
            Shaped(b') && Find(b', d) == Find(B16(keys, kids), d)
  {
  }

  lemma PackedIndex<T>(keys: seq<nat>, kids: seq<T>)
    requires Ascending(keys) && |keys| == |kids| <= 48 && forall k | k in keys :: k < 256
    ensures var index, slots := IndexFrom(keys), SlotsFrom(kids, 48);
            (forall c | 0 <= c < 256 :: index[c] <= 48) && IndexInv(index, slots)
  {
    var index, slots := IndexFrom(keys), SlotsFrom(kids, 48);
    forall p | 0 <= p < 48 && slots[p].Some? ensures exists c :: 0 <= c < 256 && index[c] == p + 1 {
      IndexOfAscending(keys, p);
      var k := keys[p];
      assert k in keys;
      assert index[k] == p + 1;
    }
  }

  lemma PackedShape<T>(b: Body<T>)
    requires BodyInv(b) && Num(b) <= 48
    ensures |ListFrom(b, 0)| == Num(b) && Packed(b).B48? && Packed(b).num == Num(b)
  {
    ListFacts(b);
  }

  lemma Remove256Clears<T>(b: Body<T>, c: nat)
    requires BodyInv(b) && b.B256? && c < 256 && Find(b, c).Some? && b.num > 0
    ensures Shaped(b) && Removed(b, B256(b.num - 1, b.slots[c := None]), c)
  {
    var b' := B256(b.num - 1, b.slots[c := None]);
    CountRemoved(b, b', c);
  }

  lemma Remove256Removes<T>(b: Body<T>, c: nat)
    requires BodyInv(b) && b.B256? && c < 256 && Find(b, c).Some? && b.num > 0
    ensures Removed(b, Remove256(b, c), c)
    ensures b.num >= 38 ==> InRange(Remove256(b, c))
  {
    var b' := B256(b.num - 1, b.slots[c := None]);
    hide Bytes, Find, ListFrom, BodyInv, Packed;
    BytesBound(b);
    Remove256Clears(b, c);
    if b'.num == 37 { PackedSame(b'); PackedShape(b'); }
  }

  lemma Remove48Removes<T>(b: Body<T>, c: nat)
    requires BodyInv(b) && b.B48? && c < 256 && b.index[c] != 0 && b.num > 0
    ensures Find(b, c).Some? && Removed(b, Remove48(b, c), c)
    ensures b.num >= 13 ==> InRange(Remove48(b, c))
  {
    hide BodyInv, IndexInv, Bytes, Find, ListFrom, Sorted;
    Body48Facts(b);
    FreeSlot(b, c);
    var b' := B48(b.num - 1, b.index[c := 0], b.slots[b.index[c] - 1 := None]);
    if b'.num == 12 { SortedSame(b'); SortedShape(b'); }
  }

  /** Clearing one byte of a NODE48, before any change of layout. */
  lemma FreeSlot<T>(b: Body<T>, c: nat)
    requires BodyInv(b) && b.B48? && c < 256 && b.index[c] != 0 && b.num > 0
    ensures Find(b, c).Some? && b.num <= 48
    ensures Removed(b, B48(b.num - 1, b.index[c := 0], b.slots[b.index[c] - 1 := None]), c)
  {
    hide BodyInv, IndexInv, Find, Shaped, Bytes;
    Body48Facts(b);
    var b' := B48(b.num - 1, b.index[c := 0], b.slots[b.index[c] - 1 := None]);
    FreeSlotIndex(b.index, b.slots, c);
    FreeSlotFinds(b, c, b.num - 1);
    CountRemoved(b, b', c);
    Body48Inv(b');
  }

  lemma Body48Facts<T>(b: Body<T>)
    requires BodyInv(b) && b.B48?
    ensures Shaped(b) && IndexInv(b.index, b.slots) && b.num == |Bytes(b)| <= 48
    ensures |b.index| == 256 && |b.slots| == 48 && forall d | 0 <= d < 256 :: b.index[d] <= 48
    ensures forall c | c in Bytes(b) :: Ascii(c)
  {
  }

  lemma SortedShape<T>(b: Body<T>)
    requires BodyInv(b)
    ensures Sorted(b).B16? && |Sorted(b).keys| == Num(b)
  {
    ListFacts(b);
  }

  lemma FreeSlotFinds<T>(b: Body<T>, c: nat, n: nat)
    requires Shaped(b) && b.B48? && c < 256 && b.index[c] != 0 && b.slots[b.index[c] - 1].Some?
    requires forall d | 0 <= d < 256 && d != c :: b.index[d] != b.index[c]
    ensures Find(b, c).Some?
    ensures var b' := B48(n, b.index[c := 0], b.slots[b.index[c] - 1 := None]);
            Shaped(b') && forall d | 0 <= d < 256 :: Find(b', d) == if d == c then None else Find(b, d)
  {
  }

  lemma FreeSlotIndex<T>(index: seq<nat>, slots: seq<Option<T>>, c: nat)
    requires |index| == 256 && |slots| == 48 && (forall d | 0 <= d < 256 :: index[d] <= 48) && IndexInv(index, slots)
    requires c < 256 && index[c] != 0
    ensures slots[index[c] - 1].Some?
    ensures IndexInv(index[c := 0], slots[index[c] - 1 := None])
    ensures forall d | 0 <= d < 256 && d != c :: index[d] != index[c]
  {
    assert forall d | 0 <= d < 256 && d != c :: index[d] != index[c];
    var index', slots' := index[c := 0], slots[index[c] - 1 := None];
    forall q | 0 <= q < 48 && slots'[q].Some? ensures exists d :: 0 <= d < 256 && index'[d] == q + 1 {
      var d :| 0 <= d < 256 && index[d] == q + 1;
      assert index'[d] == q + 1;
    }
  }

  lemma RemoveSortedRemoves<T>(b: Body<T>, b': Body<T>, c: nat)
    requires BodyInv(b) && (b.B4? || b.B16?) && c < 256 && IndexOf(b.keys, c) < |b.keys|
    requires b'.B4? || b'.B16?
    requires b'.keys == RemoveAt(b.keys, IndexOf(b.keys, c)) && b'.kids == RemoveAt(b.kids, IndexOf(b.keys, c))
    requires |b'.keys| <= if b'.B4? then 4 else 16
    ensures Find(b, c).Some? && Removed(b, b', c)
  {
    hide BodyInv, Ascending, Find, IndexOf, RemoveAt;
    KeysHaveChildren(b);
    RemoveSorted(b.keys, b.kids, IndexOf(b.keys, c));
    SortedBodyInv(b');
    forall d | 0 <= d < 256 ensures Find(b', d) == if d == c then None else Find(b, d) {
      FindAt(b, d);
      FindAt(b', d);
    }
  }

  /** Removing a child removes exactly one pair from the map, whichever layouts it passes through. */
  lemma RemoveRemoves<T>(b: Body<T>, c: nat)
    requires BodyInv(b) && c < 256 && Find(b, c).Some?
    ensures Num(b) > 0 && Removed(b, Remove(b, c), c)
    ensures InRange(b) ==> InRange(Remove(b, c)) || (b.B4? && |b.keys| == 2)
  {
    assert c in Bytes(b);
    assert Num(b) > 0 by { assert Bytes(b) != {}; }
    hide IndexInv, Bytes, Ascending;
    match b
    case B4(_, _) => RemoveSortedRemoves(b, Remove4(b, c), c);
    case B16(_, _) => RemoveSortedRemoves(b, Remove16(b, c), c);
    case B48(_, _, _) => Remove48Removes(b, c);
    case B256(_, _) => Remove256Removes(b, c);
  }

  /** How many children the layout has room for. */
  function Room<T>(b: Body<T>): nat {
    match b
    case B4(_, _) => 4
    case B16(_, _) => 16
    case B48(_, _, _) => 48
    case B256(_, _) => 256
  }

  /** A node grows exactly when it is full, and to the next layout. */
  lemma GrowsWhenFull<T>(b: Body<T>, c: nat, x: T)
    requires BodyInv(b) && Ascii(c) && Find(b, c).None?
    ensures Room(Add(b, c, x)) == if Num(b) < Room(b) then Room(b)
                                  else if b.B4? then 16 else if b.B16? then 48 else 256
  {
    hide IndexInv, Bytes, Ascending, Find;
    if b.B48? && b.num < 48 { FreeSlotExists(b); }
    if b.B16? && |b.keys| == 16 {
      Grow16Same(b);
      FreeSlotExists(Grow16(b));
    }
  }

  /** A node shrinks exactly at 3 of 16, 12 of 48 and 37 of 256 children left, and to the next layout. */
  lemma ShrinksAtThreshold<T>(b: Body<T>, c: nat)
    requires BodyInv(b) && c < 256 && Find(b, c).Some?
    ensures Num(b) > 0
    ensures Room(Remove(b, c)) == if b.B16? && Num(b) == 4 then 4 else if b.B48? && Num(b) == 13 then 16
                                  else if b.B256? && Num(b) == 38 then 48 else Room(b)
  {
    hide Find, ListFrom, IndexInv, Ascending;
    RemoveRemoves(b, c);
    if b.B256? {
      var b' := B256(b.num - 1, b.slots[c := None]);
      Remove256Clears(b, c);
      ListCount(b');
    }
  }

  // ------------------------------------------------------------------ visiting the children

  /** The order in which the children are visited: array order, or ascending bytes. */
  function Order<T>(b: Body<T>): seq<nat>
    requires Shaped(b)
  {
    if b.B4? || b.B16? then b.keys else ListFrom(b, 0)
  }

  /** Every layout visits exactly the bytes that have a child, in ascending order. */
  lemma OrderIsAscending<T>(b: Body<T>)
    requires BodyInv(b)
    ensures Ascending(Order(b)) && |Order(b)| == Num(b)
    ensures forall c :: c in Order(b) <==> 0 <= c < 256 && Find(b, c).Some?
  {
    ListFacts(b);
    hide ListFrom;
    if b.B4? || b.B16? {
      hide Find, Bytes;
      KeysHaveChildren(b);
    }
  }

  /** The first used byte from `c` on, as the loops over NODE48 and NODE256 look for it. */
  function FirstFrom<T>(b: Body<T>, c: nat): (r: nat)
    requires Shaped(b) && c <= 256
    ensures c <= r <= 256 && (r < 256 ==> Find(b, r).Some?)
    ensures forall d | c <= d < r :: Find(b, d).None?
    decreases 256 - c
  {
    if c == 256 || Find(b, c).Some? then c else FirstFrom(b, c + 1)
  }

  /** The last used byte up to `c`. */
  function LastFrom<T>(b: Body<T>, c: int): (r: int)
    requires Shaped(b) && -1 <= c < 256
    ensures -1 <= r <= c && (r >= 0 ==> Find(b, r).Some?)
    ensures forall d | r < d <= c :: Find(b, d).None?
  {
    if c == -1 || Find(b, c).Some? then c else LastFrom(b, c - 1)
  }

  lemma FirstIsFirst<T>(b: Body<T>)
    requires BodyInv(b) && Num(b) > 0
    ensures |Order(b)| > 0 && FirstFrom(b, 0) == Order(b)[0]
  {
    hide BodyInv, Find, Order, Num;
    OrderIsAscending(b);
    BodyFacts(b);
    assert Order(b)[0] in Order(b);
  }

  lemma LastIsLast<T>(b: Body<T>)
    requires BodyInv(b) && Num(b) > 0
    ensures |Order(b)| > 0 && LastFrom(b, 255) == Order(b)[|Order(b)| - 1]
  {
    hide BodyInv, Find, Order, Num;
    OrderIsAscending(b);
    BodyFacts(b);
    assert Order(b)[|Order(b)| - 1] in Order(b);
  }

  lemma KidAt<T>(b: Body<T>, i: nat)
    requires BodyInv(b) && (b.B4? || b.B16?) && i < |b.keys|
    ensures i < |b.kids| && KidIs(b, b.keys[i], b.kids[i])
  {
    hide BodyInv, Ascending;
    KeysHaveChildren(b);
    IndexOfAscending(b.keys, i);
    assert b.keys[i] in b.keys;
  }

  /** What minimum() and maximum() need to find a child to descend to. */
  predicate HasKid<T>(b: Body<T>) {
    Shaped(b) && if b.B4? || b.B16? then |b.kids| > 0 else FirstFrom(b, 0) < 256 && LastFrom(b, 255) >= 0
  }

  function FirstKid<T>(b: Body<T>): T
    requires HasKid(b)
  {
    if b.B4? || b.B16? then b.kids[0] else Find(b, FirstFrom(b, 0)).value
  }

  function LastKid<T>(b: Body<T>): T
    requires HasKid(b)
  {
    if b.B4? || b.B16? then b.kids[|b.kids| - 1] else Find(b, LastFrom(b, 255)).value
  }

  /** The child of byte `c` is `x`. */
  ghost predicate KidIs<T>(b: Body<T>, c: nat, x: T) {
    Shaped(b) && c < 256 && Find(b, c) == Some(x)
  }

  /** minimum() descends to the child of the least byte, maximum() to that of the greatest. */
  lemma EndKids<T>(b: Body<T>)
    requires BodyInv(b) && Num(b) > 0
    ensures HasKid(b) && |Order(b)| == Num(b)
    ensures KidIs(b, Order(b)[0], FirstKid(b))
    ensures KidIs(b, Order(b)[|Order(b)| - 1], LastKid(b))
  {
    hide BodyInv, Find, Num, IndexOf, ListFrom, Ascending, Shaped, Bytes;
    BodyFacts(b);
    OrderIsAscending(b);
    FirstIsFirst(b);
    LastIsLast(b);
    assert Order(b)[0] in Order(b) && Order(b)[|Order(b)| - 1] in Order(b);
    if b.B4? || b.B16? {
      KidAt(b, 0);
      KidAt(b, |b.keys| - 1);
    }
  }

  /** Storing through the pointer find_child returned. */
  function Set<T>(b: Body<T>, c: nat, x: T): Body<T>
    requires Shaped(b) && c < 256 && Find(b, c).Some?
  {
    match b
    case B4(keys, kids) => B4(keys, kids[IndexOf(keys, c) := x])
    case B16(keys, kids) => B16(keys, kids[IndexOf(keys, c) := x])
    case B48(num, index, slots) => B48(num, index, slots[index[c] - 1 := Some(x)])
    case B256(num, slots) => B256(num, slots[c := Some(x)])
  }

  lemma SetSets<T>(b: Body<T>, c: nat, x: T)
    requires BodyInv(b) && c < 256 && Find(b, c).Some?
    ensures var b' := Set(b, c, x);
            && BodyInv(b') && (InRange(b) ==> InRange(b')) && Num(b') == Num(b)
            && forall d | 0 <= d < 256 :: Find(b', d) == if d == c then Some(x) else Find(b, d)
  {
    hide BodyInv, Bytes, IndexInv;
    BodyFacts(b);
    SetFinds(b, c, x);
    SetKeepsInv(b, c, x);
  }

  lemma SetFinds<T>(b: Body<T>, c: nat, x: T)
    requires BodyInv(b) && c < 256 && Find(b, c).Some?
    ensures Shaped(Set(b, c, x)) && Bytes(Set(b, c, x)) == Bytes(b)
    ensures forall d | 0 <= d < 256 :: Find(Set(b, c, x), d) == if d == c then Some(x) else Find(b, d)
  {
    var b' := Set(b, c, x);
    forall d | 0 <= d < 256 ensures Find(b', d) == if d == c then Some(x) else Find(b, d) {}
    hide Find, Set;
    assert Bytes(b') == Bytes(b);
  }

  lemma SetKeepsInv<T>(b: Body<T>, c: nat, x: T)
    requires BodyInv(b) && c < 256 && Find(b, c).Some?
    requires Shaped(Set(b, c, x)) && Bytes(Set(b, c, x)) == Bytes(b)
    ensures BodyInv(Set(b, c, x))
  {
  }

}
