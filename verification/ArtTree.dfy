/**
  The adaptive radix tree of art.c for keys of one length: path compression that stores at most ten
  bytes of each node's prefix, insertion that splits prefixes, deletion that joins them again.
 */
module ArtTree {
  import opened Basics
  import opened ArtBody

  type Key = seq<nat>

  datatype Header = Header(len: nat, partial: seq<nat>)

  datatype Art<+V> = Leaf(key: Key, value: V) | Inner(header: Header, body: Body<Art<V>>)

  const MAX_PREFIX_LEN: nat := 10

  function Capped(n: nat): nat {
    if n < MAX_PREFIX_LEN then n else MAX_PREFIX_LEN
  }

  /** The length of the longest common prefix. */
  function MatchLen(a: seq<nat>, b: seq<nat>): (n: nat)
    ensures n <= |a| && n <= |b| && forall i | 0 <= i < n :: a[i] == b[i]
    ensures n < |a| && n < |b| ==> a[n] != b[n]
  {
    if a == [] || b == [] || a[0] != b[0] then 0 else 1 + MatchLen(a[1..], b[1..])
  }

  /** Bytes copied into a prefix array that was zeroed. */
  function Padded(s: seq<nat>): (r: seq<nat>)
    requires |s| <= MAX_PREFIX_LEN
    ensures |r| == MAX_PREFIX_LEN && forall i | 0 <= i < |s| :: r[i] == s[i]
  {
    s + Repeat(0, MAX_PREFIX_LEN - |s|)
  }

  /** Bytes copied over part of a prefix array. */
  function Overwrite(s: seq<nat>, at: nat, x: seq<nat>): (r: seq<nat>)
    requires at + |x| <= |s|
    ensures |r| == |s|
    ensures forall i | 0 <= i < |s| :: r[i] == if at <= i < at + |x| then x[i - at] else s[i]
  {
    s[..at] + x + s[at + |x|..]
  }

  // ------------------------------------------------------------------ the children as a map

  ghost function Child<T>(b: Body<T>, c: nat): Option<T> {
    if Shaped(b) && c < 256 then Find(b, c) else None
  }

  ghost predicate Good<T>(b: Body<T>) {
    BodyInv(b) && InRange(b)
  }

  lemma GoodFacts<T>(b: Body<T>)
    requires Good(b)
    ensures Shaped(b) && HasKid(b) && Ascending(Order(b)) && |Order(b)| >= 2
    ensures forall c: nat :: c in Order(b) <==> Child(b, c).Some?
    ensures Child(b, Order(b)[0]) == Some(FirstKid(b))
    ensures Child(b, Order(b)[|Order(b)| - 1]) == Some(LastKid(b))
  {
    hide BodyInv, Find, Order, HasKid, Shaped, Ascending, Bytes;
    BodyFacts(b);
    OrderIsAscending(b);
    EndKids(b);
  }

  lemma GoodSize<T>(b: Body<T>)
    requires Good(b)
    ensures (b.B4? ==> |b.keys| <= 4) && (b.B16? ==> |b.keys| <= 16)
  {
  }

  lemma ChildIsFind<T>(b: Body<T>, c: nat)
    requires Good(b) && c < 256
    ensures Shaped(b) && Child(b, c) == Find(b, c)
  {
  }

  lemma GoodAdd<T>(b: Body<T>, c: nat, x: T)
    requires Good(b) && Ascii(c) && Child(b, c).None?
    ensures Shaped(b) && (b.B4? ==> |b.keys| <= 4) && (b.B16? ==> |b.keys| <= 16)
    ensures Good(Add(b, c, x)) && forall d: nat :: Child(Add(b, c, x), d) == if d == c then Some(x) else Child(b, d)
  {
    hide Find, Bytes, Add;
    BodyFacts(b);
    AddAdds(b, c, x);
    BodyFacts(Add(b, c, x));
  }

  lemma GoodSet<T>(b: Body<T>, c: nat, x: T)
    requires Good(b) && Child(b, c).Some?
    ensures Shaped(b) && c < 256 && Find(b, c).Some?
    ensures Good(Set(b, c, x)) && forall d: nat :: Child(Set(b, c, x), d) == if d == c then Some(x) else Child(b, d)
  {
    hide Find, Bytes, Set;
    BodyFacts(b);
    SetSets(b, c, x);
    BodyFacts(Set(b, c, x));
  }

  /** The node left after a removal has two children, or it is a NODE4 with one. */
  lemma GoodRemove<T>(b: Body<T>, c: nat)
    requires Good(b) && Child(b, c).Some?
    ensures Shaped(b) && c < 256 && Find(b, c).Some? && Num(b) > 0
    ensures var b' := Remove(b, c);
            && BodyInv(b') && (forall d: nat :: Child(b', d) == if d == c then None else Child(b, d))
            && (Good(b') || (b'.B4? && |b'.keys| == |b'.kids| == 1))
            && !(Good(b') && b'.B4? && |b'.keys| == 1)
  {
    hide Find, Bytes;
    BodyFacts(b);
    RemoveRemoves(b, c);
    BodyFacts(Remove(b, c));
  }

  lemma SetSame<T>(b: Body<T>, c: nat)
    requires Shaped(b) && c < 256 && Find(b, c).Some?
    ensures Set(b, c, Find(b, c).value) == b
  {
  }

  /** The children of a new NODE4. */
  function TwoKids<T>(c: nat, x: T, d: nat, y: T): Body<T>
    requires c < 256 && d < 256
  {
    Add4(Add4(B4([], []), c, x), d, y)
  }

  lemma TwoKidsIs<T>(c: nat, x: T, d: nat, y: T)
    requires Ascii(c) && Ascii(d) && c != d
    ensures var b := TwoKids(c, x, d, y);
            Good(b) && forall e: nat :: Child(b, e) == if e == c then Some(x) else if e == d then Some(y) else None
  {
    hide Bytes, Add4;
    var b0 := B4([], []);
    var b1 := Add4(b0, c, x);
    assert b1 == Add(b0, c, x);
    EmptyInv<T>();
    AddAdds(b0, c, x);
    OneKid(c, x);
    AddAdds(b1, d, y);
    OneMore(b1, d, y);
  }

  lemma EmptyInv<T>()
    ensures BodyInv<T>(B4([], [])) && forall e | 0 <= e < 256 :: Find<T>(B4([], []), e) == None
  {
  }

  lemma OneKid<T>(c: nat, x: T)
    requires c < 256
    ensures Add4(B4([], []), c, x) == B4([c], [x])
  {
  }

  lemma OneMore<T>(b: Body<T>, d: nat, y: T)
    requires Shaped(b) && b.B4? && |b.keys| == 1 && d < 256
    ensures Add4(b, d, y).B4? && |Add4(b, d, y).keys| == 2
  {
  }

  // ------------------------------------------------------------------ the tree

  /** Every node is of a sound layout. */
  ghost predicate Wf<V>(t: Art<V>)
    decreases t
  {
    t.Inner? ==> Good(t.body) && forall c: nat | Child(t.body, c).Some? :: Wf(Child(t.body, c).value)
  }

  lemma EndKidsWf<V>(t: Art<V>)
    requires Wf(t) && t.Inner?
    ensures HasKid(t.body)
    ensures Wf(FirstKid(t.body)) && (t decreases to FirstKid(t.body))
    ensures Wf(LastKid(t.body)) && (t decreases to LastKid(t.body))
  {
    hide Good, Child, HasKid, Order, FirstKid, LastKid, Ascending, Shaped;
    GoodFacts(t.body);
    KidsAreSmaller(t);
  }

  lemma KidsAreSmaller<V>(t: Art<V>)
    requires t.Inner? && HasKid(t.body)
    ensures (t decreases to FirstKid(t.body)) && (t decreases to LastKid(t.body))
  {
  }

  /** minimum(): the leaf at the end of the leftmost path. */
  function Minimum<V>(t: Art<V>): (l: Art<V>)
    requires Wf(t)
    ensures l.Leaf?
    decreases t
  {
    match t
    case Leaf(_, _) => t
    case Inner(_, b) => EndKidsWf(t); Minimum(FirstKid(b))
  }

  /** maximum(). */
  function Maximum<V>(t: Art<V>): (l: Art<V>)
    requires Wf(t)
    ensures l.Leaf?
    decreases t
  {
    match t
    case Leaf(_, _) => t
    case Inner(_, b) => EndKidsWf(t); Maximum(LastKid(b))
  }

  ghost predicate AllAscii(k: Key) {
    forall i | 0 <= i < |k| :: Ascii(k[i])
  }

  /** The header describes prefix `q`: its length, and its first ten bytes. */
  ghost predicate HeaderFor(h: Header, q: seq<nat>) {
    |h.partial| == MAX_PREFIX_LEN && h.len == |q| && forall i | 0 <= i < Capped(|q|) :: h.partial[i] == q[i]
  }

  /** All keys below `t` have length `n` and begin with the path `p`, and every header is exact. */
  ghost predicate Inv<V>(t: Art<V>, p: Key, n: nat)
    decreases t
  {
    && Wf(t)
    && var k := Minimum(t).key;
       && |k| == n && p <= k && AllAscii(k)
       && (t.Inner? ==>
             && |p| + t.header.len < n
             && HeaderFor(t.header, k[|p|..|p| + t.header.len])
             && forall c: nat | Child(t.body, c).Some? ::
                  Inv(Child(t.body, c).value, k[..|p| + t.header.len] + [c], n))
  }

  /** The bytes shared by all keys below an inner node. */
  ghost function Path<V>(t: Art<V>, d: nat): Key {
    if Wf(t) && t.Inner? && d + t.header.len <= |Minimum(t).key| then Minimum(t).key[..d + t.header.len] else []
  }

  /** The value of a key, by comparing only the bytes that choose a child and, at the leaf, the whole key. */
  ghost function Get<V>(t: Art<V>, d: nat, k: Key): Option<V>
    decreases t
  {
    match t
    case Leaf(key, value) => if key == k then Some(value) else None
    case Inner(h, b) =>
      if d + h.len < |k| && Child(b, k[d + h.len]).Some?
      then Get(Child(b, k[d + h.len]).value, d + h.len + 1, k) else None
  }

  /** The pairs stored, in the order in which the children are visited. */
  ghost function Items<V>(t: Art<V>): seq<(Key, V)>
    requires Wf(t)
    decreases t, 1, 0
  {
    match t
    case Leaf(k, v) => [(k, v)]
    case Inner(_, b) => GoodFacts(b); ItemsOver(t, Order(b))
  }

  ghost function ItemsOver<V>(t: Art<V>, cs: seq<nat>): seq<(Key, V)>
    requires Wf(t) && t.Inner? && forall c | c in cs :: Child(t.body, c).Some?
    decreases t, 0, |cs|
  {
    if cs == [] then [] else Items(Child(t.body, cs[0]).value) + ItemsOver(t, cs[1..])
  }

  // ------------------------------------------------------------------ what the invariant says

  lemma InvKid<V>(t: Art<V>, p: Key, n: nat, c: nat)
    requires Inv(t, p, n) && t.Inner? && Child(t.body, c).Some?
    ensures Inv(Child(t.body, c).value, Path(t, |p|) + [c], n)
    ensures |Path(t, |p|)| == |p| + t.header.len < n && p <= Path(t, |p|)
    ensures (t decreases to Child(t.body, c).value)
  {
    hide Good, Order;
  }

  lemma InvWf<V>(t: Art<V>, p: Key, n: nat)
    requires Inv(t, p, n)
    ensures Wf(t) && |Minimum(t).key| == n && p <= Minimum(t).key && AllAscii(Minimum(t).key)
  {
  }

  lemma InvPath<V>(t: Art<V>, p: Key, n: nat)
    requires Inv(t, p, n) && t.Inner?
    ensures |Path(t, |p|)| == |p| + t.header.len < n && p <= Path(t, |p|) && Good(t.body)
    ensures HeaderFor(t.header, Path(t, |p|)[|p|..])
  {
  }

  /** A key found below a node begins with the node's path, although the search compares no prefix. */
  lemma {:induction false} GetMeansPath<V>(t: Art<V>, p: Key, n: nat, k: Key)
    requires Inv(t, p, n) && Get(t, |p|, k).Some?
    ensures |k| == n && AllAscii(k) && p <= k
    ensures t.Inner? ==> |p| + t.header.len < |k| && Path(t, |p|) <= k && Child(t.body, k[|p| + t.header.len]).Some?
    decreases t
  {
    if t.Inner? {
      hide Good, Order, Child, Path, Inv;
      InvPath(t, p, n);
      var c := k[|p| + t.header.len];
      InvKid(t, p, n, c);
      GetMeansPath(Child(t.body, c).value, Path(t, |p|) + [c], n, k);
    }
  }

  lemma GetKid<V>(t: Art<V>, d: nat, k: Key)
    requires t.Inner? && d + t.header.len < |k|
    ensures var c := Child(t.body, k[d + t.header.len]);
            Get(t, d, k) == if c.Some? then Get(c.value, d + t.header.len + 1, k) else None
  {
  }

  /** Visiting the tree lists exactly the pairs that can be looked up. */
  lemma {:induction false} ItemsAreGets<V>(t: Art<V>, p: Key, n: nat, k: Key, v: V)
    requires Inv(t, p, n)
    ensures (k, v) in Items(t) <==> Get(t, |p|, k) == Some(v)
    decreases t, 1, 0
  {
    if t.Inner? {
      hide Good, Order, Child, Path, Inv, Get, Ascending;
      InvPath(t, p, n);
      GoodFacts(t.body);
      ItemsOverAreGets(t, p, n, Order(t.body), k, v);
      if Get(t, |p|, k).Some? { GetMeansPath(t, p, n, k); }
    }
  }

  lemma {:induction false} ItemsOverAreGets<V>(t: Art<V>, p: Key, n: nat, cs: seq<nat>, k: Key, v: V)
    requires Inv(t, p, n) && t.Inner? && forall c | c in cs :: Child(t.body, c).Some?
    ensures (k, v) in ItemsOver(t, cs) <==>
            |p| + t.header.len < |k| && k[|p| + t.header.len] in cs && Get(t, |p|, k) == Some(v)
    decreases t, 0, |cs|
  {
    hide Good, Order, Child, Path, Inv, Get, Items;
    if cs != [] {
      var c, e := cs[0], |p| + t.header.len;
      InvPath(t, p, n);
      InvKid(t, p, n, c);
      var kid, q := Child(t.body, c).value, Path(t, |p|) + [c];
      ItemsAreGets(kid, q, n, k, v);
      ItemsOverAreGets(t, p, n, cs[1..], k, v);
      if Get(kid, |q|, k).Some? { GetMeansPath(kid, q, n, k); }
      if e < |k| { GetKid(t, |p|, k); }
    }
  }

  // ------------------------------------------------------------------ order

  /** Unsigned lexicographic order of keys of one length. */
  ghost predicate Less(a: Key, b: Key) {
    var i := MatchLen(a, b);
    i < |a| && i < |b| && a[i] < b[i]
  }

  lemma LessAt(a: Key, b: Key, i: nat)
    requires i < |a| && i < |b| && a[..i] == b[..i] && a[i] < b[i]
    ensures Less(a, b)
  {
  }

  ghost predicate SortedItems<V>(s: seq<(Key, V)>) {
    forall i, j | 0 <= i < j < |s| :: Less(s[i].0, s[j].0)
  }

  /** The tree is visited in ascending order of keys. */
  lemma {:induction false} ItemsAscend<V>(t: Art<V>, p: Key, n: nat)
    requires Inv(t, p, n)
    ensures SortedItems(Items(t))
    decreases t, 1, 0
  {
    if t.Inner? {
      hide Good, Order, Child, Path, Inv, Less, SortedItems, ItemsOver;
      InvPath(t, p, n);
      GoodFacts(t.body);
      ItemsOverAscend(t, p, n, Order(t.body));
    }
  }

  lemma {:induction false} ItemsOverAscend<V>(t: Art<V>, p: Key, n: nat, cs: seq<nat>)
    requires Inv(t, p, n) && t.Inner? && (forall c | c in cs :: Child(t.body, c).Some?) && Ascending(cs)
    ensures SortedItems(ItemsOver(t, cs))
    decreases t, 0, |cs|
  {
    hide Good, Order, Child, Path, Inv, Less, Items;
    if cs != [] {
      var kid := Child(t.body, cs[0]).value;
      InvKid(t, p, n, cs[0]);
      var q := Path(t, |p|) + [cs[0]];
      InvWf(t, p, n);
      InvWf(kid, q, n);
      ItemsAscend(kid, q, n);
      ItemsOverAscend(t, p, n, cs[1..]);
      var a, b := Items(kid), ItemsOver(t, cs[1..]);
      forall i, j | 0 <= i < |a| && 0 <= j < |b| ensures Less(a[i].0, b[j].0) {
        KidBeforeRest(t, p, n, cs, a[i].0, a[i].1, b[j].0, b[j].1);
      }
      assert ItemsOver(t, cs) == a + b;
    }
  }

  lemma KidBeforeRest<V>(t: Art<V>, p: Key, n: nat, cs: seq<nat>, k: Key, v: V, k': Key, v': V)
    requires Inv(t, p, n) && t.Inner? && (forall c | c in cs :: Child(t.body, c).Some?) && Ascending(cs) && cs != []
    requires Wf(Child(t.body, cs[0]).value) && (k, v) in Items(Child(t.body, cs[0]).value)
    requires (k', v') in ItemsOver(t, cs[1..])
    ensures Less(k, k')
  {
    hide Good, Order, Child, Path, Inv, Get, Less, Items;
    InvPath(t, p, n);
    InvKid(t, p, n, cs[0]);
    var kid, q := Child(t.body, cs[0]).value, Path(t, |p|) + [cs[0]];
    ItemsAreGets(kid, q, n, k, v);
    GetMeansPath(kid, q, n, k);
    ItemsOverAreGets(t, p, n, cs[1..], k', v');
    GetMeansPath(t, p, n, k');
    var e := |p| + t.header.len;
    assert k[..e] == Path(t, |p|) == k'[..e];
    LessAt(k, k', e);
  }

  /** minimum() and maximum() are the ends of the visit, so they hold the least and the greatest key. */
  lemma {:induction false} EndsAreExtreme<V>(t: Art<V>)
    requires Wf(t)
    ensures Items(t) != []
    ensures Items(t)[0] == (Minimum(t).key, Minimum(t).value)
    ensures Items(t)[|Items(t)| - 1] == (Maximum(t).key, Maximum(t).value)
    decreases t
  {
    hide *;
    if t.Leaf? {
      LeafItems(t);
    } else {
      EndKidsWf(t);
      EndSteps(t);
      EndsAreExtreme(FirstKid(t.body));
      EndsAreExtreme(LastKid(t.body));
      ItemsOverEnds(t, Order(t.body));
    }
  }

  lemma LeafItems<V>(t: Art<V>)
    requires t.Leaf?
    ensures Wf(t) && Items(t) == [(t.key, t.value)] && Minimum(t) == t == Maximum(t)
  {
  }

  lemma EndSteps<V>(t: Art<V>)
    requires Wf(t) && t.Inner? && HasKid(t.body) && Wf(FirstKid(t.body)) && Wf(LastKid(t.body))
    ensures Minimum(t) == Minimum(FirstKid(t.body)) && Maximum(t) == Maximum(LastKid(t.body))
    ensures Shaped(t.body) && Order(t.body) != [] && forall c | c in Order(t.body) :: Child(t.body, c).Some?
    ensures Items(t) == ItemsOver(t, Order(t.body))
    ensures Child(t.body, Order(t.body)[0]) == Some(FirstKid(t.body))
    ensures Child(t.body, Order(t.body)[|Order(t.body)| - 1]) == Some(LastKid(t.body))
  {
    hide Good, Order, Child, FirstKid, LastKid, HasKid, Ascending, Shaped, ItemsOver;
    GoodFacts(t.body);
  }

  lemma {:induction false} ItemsOverEnds<V>(t: Art<V>, cs: seq<nat>)
    requires Wf(t) && t.Inner? && (forall c | c in cs :: Child(t.body, c).Some?) && cs != []
    requires Items(Child(t.body, cs[0]).value) != [] && Items(Child(t.body, cs[|cs| - 1]).value) != []
    ensures var a, z := Items(Child(t.body, cs[0]).value), Items(Child(t.body, cs[|cs| - 1]).value);
            var s := ItemsOver(t, cs);
            s != [] && s[0] == a[0] && s[|s| - 1] == z[|z| - 1]
    decreases |cs|
  {
    hide Good, Order, Child, Items;
    if |cs| > 1 {
      assert cs[1..][|cs| - 2] == cs[|cs| - 1];
      ItemsOverLast(t, cs);
    } else {
      assert ItemsOver(t, cs) == Items(Child(t.body, cs[0]).value);
    }
  }

  lemma {:induction false} ItemsOverLast<V>(t: Art<V>, cs: seq<nat>)
    requires Wf(t) && t.Inner? && (forall c | c in cs :: Child(t.body, c).Some?) && cs != []
    requires Items(Child(t.body, cs[|cs| - 1]).value) != []
    ensures var z, s := Items(Child(t.body, cs[|cs| - 1]).value), ItemsOver(t, cs);
            s != [] && s[|s| - 1] == z[|z| - 1]
    decreases |cs|
  {
    hide Good, Order, Child, Items;
    if |cs| > 1 {
      assert cs[1..][|cs| - 2] == cs[|cs| - 1];
      ItemsOverLast(t, cs[1..]);
    } else {
      assert ItemsOver(t, cs) == Items(Child(t.body, cs[0]).value) + [];
    }
  }

  // ------------------------------------------------------------------ the map stored

  ghost function ToMap<V>(s: seq<(Key, V)>): map<Key, V> {
    if s == [] then map[] else ToMap(s[..|s| - 1])[s[|s| - 1].0 := s[|s| - 1].1]
  }

  ghost predicate DistinctKeys<V>(s: seq<(Key, V)>) {
    forall i, j | 0 <= i < j < |s| :: s[i].0 != s[j].0
  }

  lemma {:induction false} ToMapIs<V>(s: seq<(Key, V)>)
    requires DistinctKeys(s)
    ensures |ToMap(s)| == |s|
    ensures forall k | k in ToMap(s) :: (k, ToMap(s)[k]) in s
    ensures forall x | x in s :: x.0 in ToMap(s) && ToMap(s)[x.0] == x.1
  {
    if s != [] {
      var r, x := s[..|s| - 1], s[|s| - 1];
      ToMapIs(r);
      forall y | y in r ensures y.0 != x.0 {
        var i :| 0 <= i < |r| && r[i] == y;
        assert s[i].0 != s[|s| - 1].0;
      }
      hide DistinctKeys, ToMap;
      ToMapSnoc(s, r, x);
    }
  }

  lemma ToMapSnoc<V>(s: seq<(Key, V)>, r: seq<(Key, V)>, x: (Key, V))
    requires s == r + [x] && |ToMap(r)| == |r| && forall y | y in r :: y.0 != x.0
    requires forall k | k in ToMap(r) :: (k, ToMap(r)[k]) in r
    requires forall y | y in r :: y.0 in ToMap(r) && ToMap(r)[y.0] == y.1
    ensures |ToMap(s)| == |s|
    ensures forall k | k in ToMap(s) :: (k, ToMap(s)[k]) in s
    ensures forall y | y in s :: y.0 in ToMap(s) && ToMap(s)[y.0] == y.1
  {
    assert s[..|s| - 1] == r && s[|s| - 1] == x;
    var m, m' := ToMap(r), ToMap(s);
    assert m' == m[x.0 := x.1];
    hide ToMap;
    forall k | k in m ensures k != x.0 { assert (k, m[k]) in r; }
    forall k | k in m' ensures (k, m'[k]) in s {
      if k == x.0 { assert s[|r|] == x; } else { assert (k, m[k]) in r; }
    }
    forall y | y in s ensures y.0 in m' && m'[y.0] == y.1 {
      if y != x { assert y in r; }
    }
  }

  /** The map a tree stores: the pairs its visit lists. */
  ghost function Abs<V>(t: Art<V>): map<Key, V>
    requires Wf(t)
  {
    ToMap(Items(t))
  }

  lemma LessIsDistinct<V>(s: seq<(Key, V)>)
    requires SortedItems(s)
    ensures DistinctKeys(s)
  {
  }

  /** No key is listed twice; lookup and visit agree. */
  lemma AbsIsGet<V>(t: Art<V>, p: Key, n: nat)
    requires Inv(t, p, n)
    ensures |Abs(t)| == |Items(t)|
    ensures forall k :: k in Abs(t) <==> Get(t, |p|, k).Some?
    ensures forall k | k in Abs(t) :: Get(t, |p|, k) == Some(Abs(t)[k])
  {
    hide Inv, Get, Items, DistinctKeys, SortedItems, ToMap, Wf;
    InvWf(t, p, n);
    ItemsAscend(t, p, n);
    LessIsDistinct(Items(t));
    ToMapIs(Items(t));
    forall k ensures k in Abs(t) <==> Get(t, |p|, k).Some?
             ensures k in Abs(t) ==> Get(t, |p|, k) == Some(Abs(t)[k]) {
      if k in Abs(t) {
        ItemsAreGets(t, p, n, k, Abs(t)[k]);
      }
      if Get(t, |p|, k).Some? {
        ItemsAreGets(t, p, n, k, Get(t, |p|, k).value);
      }
    }
  }
}
