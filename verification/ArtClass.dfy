/** The tree as the caller holds it: a root that is overwritten and a count; and the iteration with a callback. */
module ArtClass {
  import opened Basics
  import opened ArtBody
  import opened ArtTree
  import opened ArtOps
  import opened ArtMap

  class RadixTree<V> {
    var root: Option<Art<V>>
    var size: nat

    /** init_art_tree. */
    constructor ()
      ensures forall n :: Valid(n)
      ensures Model() == map[]
    {
      root := None;
      size := 0;
    }

    ghost predicate Valid(n: nat)
      reads this
    {
      TreeInv(Tree(root, size), n)
    }

    ghost function Model(): map<Key, V>
      reads this
    {
      Contents(Tree(root, size))
    }

    /** art_search: walks down with a current node and a depth. */
    method Search(key: Key) returns (value: Option<V>)
      requires Valid(|key|) && IsBytes(key)
      ensures value == Lookup(Model(), key)
    {
      hide Inv, Get, Contents, TreeInv, Good, Find, Child, Shaped, HasKid, Order, Ascending, Path, HeaderFor,
        CheckPrefix, Abs, Wf;
      SearchRefines(Tree(root, size), key);
      RootInv(Tree(root, size), |key|);
      var n, depth := root, 0;
      ghost var p: Key := [];
      while n.Some?
        invariant n.Some? ==> Inv(n.value, p, |key|) && |p| == depth
        invariant Lookup(Model(), key) == if n.None? then None else ArtOps.Search(n.value, key, depth, p)
        invariant depth <= |key|
        decreases |key| - depth, n.Some?
      {
        match n.value
        case Leaf(k, v) =>
          return if k == key then Some(v) else None;
        case Inner(h, b) =>
          InvPath(n.value, p, |key|);
          HeaderPartial(h, Path(n.value, |p|)[|p|..]);
          GoodFacts(b);
          if h.len > 0 {
            var prefix := StoredMatch(h, key, depth);
            if prefix != Capped(h.len) {
              return None;
            }
            depth := depth + h.len;
          }
          var child := Find(b, key[depth]);
          ChildIsFind(b, key[depth]);
          if child.Some? {
            InvKid(n.value, p, |key|, key[depth]);
            p := Path(n.value, |p|) + [key[depth]];
            InvWf(child.value, p, |key|);
          }
          n := child;
          depth := depth + 1;
      }
      return None;
    }

    /** check_prefix. */
    method StoredMatch(h: Header, key: Key, depth: nat) returns (idx: nat)
      requires |h.partial| == MAX_PREFIX_LEN && depth <= |key|
      ensures idx == CheckPrefix(h, key, depth)
    {
      var max := MinNat(Capped(h.len), |key| - depth);
      idx := 0;
      ghost var a, b := h.partial[..max], key[depth..depth + max];
      while idx < max
        invariant idx <= max && forall i | 0 <= i < idx :: a[i] == b[i]
      {
        if h.partial[idx] != key[depth + idx] {
          assert a[idx] != b[idx];
          return;
        }
        idx := idx + 1;
      }
    }

    /** art_insert. */
    method Insert(key: Key, value: V) returns (was: Option<V>)
      requires Valid(|key|) && AllAscii(key)
      modifies this
      ensures Valid(|key|)
      ensures Model() == old(Model())[key := value]
      ensures was == Lookup(old(Model()), key)
    {
      hide Inv, Contents, TreeInv;
      InsertRefines(Tree(root, size), key, value);
      RootInv(Tree(root, size), |key|);
      var r := ArtInsert(Tree(root, size), key, value);
      root, size, was := r.0.root, r.0.size, r.1;
    }

    /** art_delete. */
    method Delete(key: Key) returns (was: Option<V>)
      requires Valid(|key|) && IsBytes(key)
      modifies this
      ensures Valid(|key|)
      ensures Model() == old(Model()) - {key}
      ensures was == Lookup(old(Model()), key)
    {
      hide Inv, Contents, TreeInv;
      DeleteRefines(Tree(root, size), key);
      RootInv(Tree(root, size), |key|);
      var r := ArtDelete(Tree(root, size), key);
      root, size, was := r.0.root, r.0.size, r.1;
    }
  }

  // ------------------------------------------------------------------ iteration with a callback

  type Callback<!S, !V> = (S, Key, V) -> (S, int)

  /** recursive_iter: the state the callback leaves, and its first non-zero answer. */
  function Iter<S, V>(t: Art<V>, cb: Callback<S, V>, s: S): (S, int)
    requires Wf(t)
    decreases t, 1, 0
  {
    match t
    case Leaf(k, v) => cb(s, k, v)
    case Inner(_, b) => if b.B4? || b.B16? then IterArray(t, 0, cb, s) else IterBytes(t, 0, cb, s)
  }

  function IterArray<S, V>(t: Art<V>, i: nat, cb: Callback<S, V>, s: S): (S, int)
    requires Wf(t) && t.Inner? && (t.body.B4? || t.body.B16?) && i <= |t.body.keys|
    decreases t, 0, |t.body.keys| - i
  {
    if i == |t.body.keys| then (s, 0)
    else
      ArrayKid(t, i);
      var r := Iter(t.body.kids[i], cb, s);
      if r.1 != 0 then r else IterArray(t, i + 1, cb, r.0)
  }

  function IterBytes<S, V>(t: Art<V>, c: nat, cb: Callback<S, V>, s: S): (S, int)
    requires Wf(t) && t.Inner? && c <= 256
    decreases t, 0, 256 - c
  {
    WfShaped(t);
    if c == 256 then (s, 0)
    else if Find(t.body, c).None? then IterBytes(t, c + 1, cb, s)
    else
      ByteKid(t, c);
      var r := Iter(Find(t.body, c).value, cb, s);
      if r.1 != 0 then r else IterBytes(t, c + 1, cb, r.0)
  }

  lemma ArrayKid<V>(t: Art<V>, i: nat)
    requires Wf(t) && t.Inner? && (t.body.B4? || t.body.B16?) && i < |t.body.keys|
    ensures i < |t.body.kids| && Child(t.body, t.body.keys[i]) == Some(t.body.kids[i])
    ensures Wf(t.body.kids[i]) && (t decreases to t.body.kids[i])
  {
    hide BodyInv, Find, Shaped;
    KidAt(t.body, i);
  }

  lemma WfShaped<V>(t: Art<V>)
    requires Wf(t) && t.Inner?
    ensures Shaped(t.body)
  {
  }

  lemma ByteKid<V>(t: Art<V>, c: nat)
    requires Wf(t) && t.Inner? && c < 256 && Shaped(t.body) && Find(t.body, c).Some?
    ensures Child(t.body, c) == Find(t.body, c)
    ensures Wf(Find(t.body, c).value) && (t decreases to Find(t.body, c).value)
  {
  }

  /** The callback applied along a list until it answers non-zero. */
  function Visit<S, V>(items: seq<(Key, V)>, cb: Callback<S, V>, s: S): (S, int) {
    if items == [] then (s, 0)
    else
      var r := cb(s, items[0].0, items[0].1);
      if r.1 != 0 then r else Visit(items[1..], cb, r.0)
  }

  lemma {:induction false} VisitAppend<S, V>(a: seq<(Key, V)>, b: seq<(Key, V)>, cb: Callback<S, V>, s: S)
    ensures Visit(a + b, cb, s) == var r := Visit(a, cb, s); if r.1 != 0 then r else Visit(b, cb, r.0)
    decreases |a|
  {
    if a == [] {
      assert a + b == b;
    } else {
      assert (a + b)[1..] == a[1..] + b;
      VisitAppend(a[1..], b, cb, cb(s, a[0].0, a[0].1).0);
    }
  }

  /** The callback sees the pairs of the tree from left to right, up to its first non-zero answer. */
  lemma {:induction false} IterIsVisit<S, V>(t: Art<V>, cb: Callback<S, V>, s: S)
    requires Wf(t)
    ensures Iter(t, cb, s) == Visit(Items(t), cb, s)
    decreases t, 1, 0
  {
    if t.Inner? {
      hide Good, Child, Find, Shaped, Wf, ListFrom, Visit;
      WfShaped(t);
      OrderKids(t);
      if t.body.B4? || t.body.B16? {
        assert t.body.keys[0..] == Order(t.body);
        IterArrayIs(t, 0, cb, s);
      } else {
        IterBytesIs(t, 0, cb, s);
      }
      ItemsStep(t);
    }
  }

  /** art_iter: what the callback is applied to is the map, every pair once, in ascending order of the keys. */
  lemma IterAscends<S, V>(t: Tree<V>, n: nat, cb: Callback<S, V>, s: S)
    requires TreeInv(t, n) && t.root.Some? && Wf(t.root.value)
    ensures Iter(t.root.value, cb, s) == Visit(Items(t.root.value), cb, s)
    ensures SortedItems(Items(t.root.value))
    ensures forall k, v :: (k, v) in Items(t.root.value) <==> Lookup(Contents(t), k) == Some(v)
  {
    hide Inv, Get, Iter, Visit, Items, Contents, SortedItems;
    var root := t.root.value;
    IterIsVisit(root, cb, s);
    ItemsAscend(root, [], n);
    ContentsIsGet(t, n);
    forall k, v ensures (k, v) in Items(root) <==> Get(root, 0, k) == Some(v) { ItemsAreGets(root, [], n, k, v); }
  }

  lemma OrderKids<V>(t: Art<V>)
    requires Wf(t) && t.Inner?
    ensures Shaped(t.body) && forall c | c in Order(t.body) :: Child(t.body, c).Some?
  {
    hide Good, Child, Order;
    GoodFacts(t.body);
  }

  lemma ItemsStep<V>(t: Art<V>)
    requires Wf(t) && t.Inner? && Shaped(t.body) && forall c | c in Order(t.body) :: Child(t.body, c).Some?
    ensures Items(t) == ItemsOver(t, Order(t.body))
  {
  }

  lemma {:induction false} IterArrayIs<S, V>(t: Art<V>, i: nat, cb: Callback<S, V>, s: S)
    requires Wf(t) && t.Inner? && (t.body.B4? || t.body.B16?) && i <= |t.body.keys|
    requires forall c | c in t.body.keys :: Child(t.body, c).Some?
    ensures IterArray(t, i, cb, s) == Visit(ItemsOver(t, t.body.keys[i..]), cb, s)
    decreases t, 0, |t.body.keys| - i
  {
    hide Good, Child, Wf, Items, Iter;
    if i < |t.body.keys| {
      ArrayKid(t, i);
      var kid, rest := t.body.kids[i], t.body.keys[i + 1..];
      IterIsVisit(kid, cb, s);
      var r := Iter(kid, cb, s);
      IterArrayIs(t, i + 1, cb, r.0);
      assert t.body.keys[i..][0] == t.body.keys[i] && t.body.keys[i..][1..] == rest;
      VisitAppend(Items(kid), ItemsOver(t, rest), cb, s);
    }
  }

  lemma {:induction false} IterBytesIs<S, V>(t: Art<V>, c: nat, cb: Callback<S, V>, s: S)
    requires Wf(t) && t.Inner? && c <= 256 && Shaped(t.body)
    ensures forall d | d in ListFrom(t.body, c) :: Child(t.body, d).Some?
    ensures IterBytes(t, c, cb, s) == Visit(ItemsOver(t, ListFrom(t.body, c)), cb, s)
    decreases t, 0, 256 - c
  {
    hide Good, Child, Wf, Items, ItemsOver, ListFrom, Iter, Find, Shaped, Visit;
    ListStep(t.body, c);
    if c < 256 {
      if Find(t.body, c).Some? {
        ByteKid(t, c);
        var kid := Find(t.body, c).value;
        IterIsVisit(kid, cb, s);
        var r := Iter(kid, cb, s);
        IterBytesIs(t, c + 1, cb, r.0);
        var rest := ListFrom(t.body, c + 1);
        ItemsOverCons(t, c, rest);
        VisitAppend(Items(kid), ItemsOver(t, rest), cb, s);
      } else {
        IterBytesIs(t, c + 1, cb, s);
      }
    } else {
      VisitNone(t, cb, s);
    }
  }

  lemma ListStep<V>(b: Body<Art<V>>, c: nat)
    requires Shaped(b) && c <= 256
    ensures ListFrom(b, c) == if c == 256 then []
                              else if Find(b, c).Some? then [c] + ListFrom(b, c + 1) else ListFrom(b, c + 1)
  {
    hide Find, Shaped;
  }

  lemma ItemsOverCons<V>(t: Art<V>, c: nat, cs: seq<nat>)
    requires Wf(t) && t.Inner? && Child(t.body, c).Some? && forall d | d in cs :: Child(t.body, d).Some?
    ensures forall d | d in [c] + cs :: Child(t.body, d).Some?
    ensures ItemsOver(t, [c] + cs) == Items(Child(t.body, c).value) + ItemsOver(t, cs)
  {
    hide Child, Wf, Items;
    assert ([c] + cs)[1..] == cs;
  }

  lemma VisitNone<S, V>(t: Art<V>, cb: Callback<S, V>, s: S)
    requires Wf(t) && t.Inner?
    ensures ItemsOver(t, []) == [] && Visit(ItemsOver(t, []), cb, s) == (s, 0)
  {
  }
}
