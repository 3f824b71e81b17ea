/** Search, insertion and deletion in the adaptive radix tree, and the map they refine. */
module ArtOps {
  import opened Basics
  import opened ArtBody
  import opened ArtTree

  predicate IsBytes(k: Key) {
    forall i | 0 <= i < |k| :: k[i] < 256
  }

  /** check_prefix: how many of the stored prefix bytes the key shares. */
  function CheckPrefix(h: Header, key: Key, d: nat): nat
    requires |h.partial| == MAX_PREFIX_LEN && d <= |key|
  {
    var m := MinNat(Capped(h.len), |key| - d);
    MatchLen(h.partial[..m], key[d..d + m])
  }

  lemma CheckPrefixIs(h: Header, q: seq<nat>, key: Key, d: nat)
    requires HeaderFor(h, q) && d + h.len <= |key|
    ensures CheckPrefix(h, key, d) == Capped(h.len) <==> forall i | 0 <= i < Capped(h.len) :: q[i] == key[d + i]
  {
    var m := Capped(h.len);
    var a, b := h.partial[..m], key[d..d + m];
    assert CheckPrefix(h, key, d) == MatchLen(a, b);
    assert forall i | 0 <= i < m :: a[i] == q[i] && b[i] == key[d + i];
  }

  /** art_search. */
  function Search<V>(t: Art<V>, key: Key, d: nat, ghost p: Key): Option<V>
    requires Inv(t, p, |key|) && |p| == d && IsBytes(key)
    decreases t
  {
    match t
    case Leaf(k, v) => if k == key then Some(v) else None
    case Inner(h, b) =>
      InvPath(t, p, |key|);
      GoodFacts(b);
      if h.len > 0 && CheckPrefix(h, key, d) != Capped(h.len) then None
      else
        var c := key[d + h.len];
        ChildIsFind(b, c);
        if Find(b, c).None? then None
        else
          InvKid(t, p, |key|, c);
          Search(Find(b, c).value, key, d + h.len + 1, Path(t, d) + [c])
  }

  /** Skipping the bytes of long prefixes never hides a stored key nor invents one. */
  lemma {:induction false} SearchIsGet<V>(t: Art<V>, key: Key, d: nat, p: Key)
    requires Inv(t, p, |key|) && |p| == d && IsBytes(key)
    ensures Search(t, key, d, p) == Get(t, d, key)
    decreases t
  {
    hide Good, Order, Child, Find, Path, Inv, HeaderFor, CheckPrefix, Shaped;
    if t.Inner? {
      var h := t.header;
      InvPath(t, p, |key|);
      ChildIsFind(t.body, key[d + h.len]);
      GetKid(t, d, key);
      if Get(t, d, key).Some? {
        GetMeansPath(t, p, |key|, key);
        PathPasses(t, p, key);
      }
      if Find(t.body, key[d + h.len]).Some? {
        InvKid(t, p, |key|, key[d + h.len]);
        SearchIsGet(Find(t.body, key[d + h.len]).value, key, d + h.len + 1, Path(t, d) + [key[d + h.len]]);
      }
    }
  }

  lemma PathPasses<V>(t: Art<V>, p: Key, key: Key)
    requires Inv(t, p, |key|) && t.Inner? && Path(t, |p|) <= key
    ensures |t.header.partial| == MAX_PREFIX_LEN && CheckPrefix(t.header, key, |p|) == Capped(t.header.len)
  {
    hide Good, Order, Child, Inv, Path, CheckPrefix;
    InvPath(t, p, |key|);
    CheckPrefixIs(t.header, Path(t, |p|)[|p|..], key, |p|);
  }

  // ------------------------------------------------------------------ insertion

  /** What recursive_insert relies on at an inner node. */
  ghost predicate InsertOk<V>(t: Art<V>, key: Key, d: nat) {
    && Wf(t) && t.Inner? && |t.header.partial| == MAX_PREFIX_LEN
    && d + t.header.len < |key| == |Minimum(t).key|
    && IsBytes(key) && IsBytes(Minimum(t).key) && IsBytes(t.header.partial[..Capped(t.header.len)])
  }

  /** prefix_mismatch: compares the stored bytes, then, past ten, those of some leaf below. */
  function PrefixMismatch<V>(t: Art<V>, key: Key, d: nat): nat
    requires InsertOk(t, key, d)
  {
    var m := MinNat(Capped(t.header.len), |key| - d);
    var i := MatchLen(t.header.partial[..m], key[d..d + m]);
    if i < m || t.header.len <= MAX_PREFIX_LEN then i
    else i + MatchLen(Minimum(t).key[d + i..], key[d + i..])
  }

  lemma PathIs<V>(t: Art<V>, d: nat)
    requires Wf(t) && t.Inner? && d + t.header.len <= |Minimum(t).key|
    ensures Path(t, d) == Minimum(t).key[..d + t.header.len]
  {
  }

  lemma MismatchDiffers<V>(t: Art<V>, key: Key, d: nat)
    requires InsertOk(t, key, d) && d <= |Path(t, d)| && HeaderFor(t.header, Path(t, d)[d..])
    ensures DifferAt(Minimum(t).key, key, d, t.header.len, PrefixMismatch(t, key, d))
  {
    hide HeaderFor, MatchLen, DifferAt, Wf, Path, Minimum;
    PathIs(t, d);
    MismatchAt(t.header, Minimum(t).key, key, d);
  }

  /** The result is the first position at which the key leaves the node's path, or beyond the prefix. */
  lemma PrefixMismatchIs<V>(t: Art<V>, key: Key, d: nat)
    requires d <= |key| && Inv(t, key[..d], |key|) && InsertOk(t, key, d) && |Path(t, d)| == d + t.header.len
    ensures var r, q := PrefixMismatch(t, key, d), Path(t, d);
            && (r >= t.header.len <==> q <= key)
            && (r < t.header.len ==> |q| <= |key| && q[..d + r] == key[..d + r] && q[d + r] != key[d + r])
  {
    hide Good, Order, Child, Inv, HeaderFor, MatchLen, DifferAt, Wf, Path, PrefixMismatch;
    InvWf(t, key[..d], |key|);
    InvPath(t, key[..d], |key|);
    var l := Minimum(t).key;
    assert l[..d] == key[..d];
    MismatchDiffers(t, key, d);
    PathIs(t, d);
    DifferOnPath(l, key, d, t.header.len, PrefixMismatch(t, key, d));
  }

  /** The key and a leaf below agree on the first `r` bytes past the depth, and differ next. */
  ghost predicate DifferAt(l: Key, key: Key, d: nat, len: nat, r: nat) {
    && d + len < |key| == |l| && d + r <= |key|
    && (forall j | d <= j < d + r :: l[j] == key[j])
    && (r < len ==> l[d + r] != key[d + r])
  }

  lemma MismatchAt(h: Header, l: Key, key: Key, d: nat)
    requires |h.partial| == MAX_PREFIX_LEN && d + h.len < |key| == |l|
    requires HeaderFor(h, l[..d + h.len][d..])
    ensures var m := MinNat(Capped(h.len), |key| - d);
            var i := MatchLen(h.partial[..m], key[d..d + m]);
            var r := if i < m || h.len <= MAX_PREFIX_LEN then i else i + MatchLen(l[d + i..], key[d + i..]);
            DifferAt(l, key, d, h.len, r)
  {
    hide DifferAt, MatchLen;
    StoredMatch(h, l, key, d);
    var m := Capped(h.len);
    var i := MatchLen(h.partial[..m], key[d..d + m]);
    if i < m || h.len <= MAX_PREFIX_LEN {
      DifferEnough(l, key, d, m, h.len, i);
    } else {
      LeafMatch(l, key, d, h.len, i);
    }
  }

  lemma StoredMatch(h: Header, l: Key, key: Key, d: nat)
    requires |h.partial| == MAX_PREFIX_LEN && d + h.len < |key| == |l| && HeaderFor(h, l[..d + h.len][d..])
    ensures var m := Capped(h.len);
            m == MinNat(m, |key| - d) && DifferAt(l, key, d, m, MatchLen(h.partial[..m], key[d..d + m]))
  {
    var m := Capped(h.len);
    var a, b := h.partial[..m], key[d..d + m];
    var q := l[..d + h.len];
    var q' := q[d..];
    assert forall j | 0 <= j < m :: a[j] == q'[j] && b[j] == key[d + j];
    var n := MatchLen(a, b);
    forall j | d <= j < d + n ensures l[j] == key[j] {
      assert a[j - d] == b[j - d] && q'[j - d] == q[j];
    }
    assert n < m ==> a[n] != b[n] && q'[n] == q[d + n];
  }

  lemma DifferEnough(l: Key, key: Key, d: nat, m: nat, len: nat, i: nat)
    requires DifferAt(l, key, d, m, i) && d + len < |key| && (i < m || len <= m) && m <= len
    ensures DifferAt(l, key, d, len, i)
  {
  }

  lemma LeafMatch(l: Key, key: Key, d: nat, len: nat, i: nat)
    requires |l| == |key| && d + len < |key| && d + i <= |key| && forall j | d <= j < d + i :: l[j] == key[j]
    ensures DifferAt(l, key, d, len, i + MatchLen(l[d + i..], key[d + i..]))
  {
  }

  lemma DifferOnPath(l: Key, key: Key, d: nat, len: nat, r: nat)
    requires DifferAt(l, key, d, len, r) && l[..d] == key[..d]
    ensures var q := l[..d + len];
            && (r >= len <==> q <= key)
            && (r < len ==> |q| <= |key| && q[..d + r] == key[..d + r] && q[d + r] != key[d + r])
  {
  }

  /** Two leaves under a new NODE4 that holds their common prefix. */
  function SplitLeaf<V>(leaf: Art<V>, key: Key, v: V, d: nat): Art<V>
    requires leaf.Leaf? && d <= |key| == |leaf.key| && leaf.key != key && leaf.key[..d] == key[..d]
    requires IsBytes(key) && IsBytes(leaf.key)
  {
    var n := MatchLen(leaf.key[d..], key[d..]);
    SplitIndex(leaf.key, key, d);
    Inner(Header(n, Padded(key[d..d + Capped(n)])), TwoKids(leaf.key[d + n], leaf, key[d + n], Leaf(key, v)))
  }

  lemma SplitIndex(a: Key, b: Key, d: nat)
    requires d <= |a| == |b| && a != b && a[..d] == b[..d]
    ensures var n := MatchLen(a[d..], b[d..]);
            d + n < |a| && a[..d + n] == b[..d + n] && a[d + n] != b[d + n]
  {
  }

  /** The node whose prefix the key leaves, with that much of the prefix cut off. */
  function Shortened<V>(t: Art<V>, r: nat, d: nat): Art<V>
    requires Wf(t) && t.Inner? && |t.header.partial| == MAX_PREFIX_LEN && r < t.header.len
    requires d + t.header.len < |Minimum(t).key|
  {
    var h := t.header;
    var rest := h.len - (r + 1);
    var from := if h.len <= MAX_PREFIX_LEN then h.partial[r + 1..r + 1 + rest]
                else Minimum(t).key[d + r + 1..d + r + 1 + Capped(rest)];
    Inner(Header(rest, Overwrite(h.partial, 0, from)), t.body)
  }

  /** A new NODE4 above the node, for the bytes before the mismatch. */
  function SplitPrefix<V>(t: Art<V>, key: Key, v: V, d: nat, r: nat): Art<V>
    requires InsertOk(t, key, d) && r < t.header.len
  {
    var h := t.header;
    var edge := if h.len <= MAX_PREFIX_LEN then h.partial[..h.len][r] else Minimum(t).key[d + r];
    Inner(Header(r, Padded(h.partial[..Capped(r)])), TwoKids(edge, Shortened(t, r, d), key[d + r], Leaf(key, v)))
  }

  /** Growing and shrinking copy the header into a zeroed node. */
  function Copied(h: Header): Header
    requires |h.partial| == MAX_PREFIX_LEN
  {
    Header(h.len, Padded(h.partial[..Capped(h.len)]))
  }

  predicate SameLayout<T>(a: Body<T>, b: Body<T>) {
    (a.B4? && b.B4?) || (a.B16? && b.B16?) || (a.B48? && b.B48?) || (a.B256? && b.B256?)
  }

  function HeaderAfter<T>(h: Header, a: Body<T>, b: Body<T>): Header
    requires |h.partial| == MAX_PREFIX_LEN
  {
    if SameLayout(a, b) then h else Copied(h)
  }

  lemma AsciiIsBytes(k: Key)
    requires AllAscii(k)
    ensures IsBytes(k)
  {
  }

  /** The invariant provides it, and for leaves what splitting them needs. */
  lemma InsertReady<V>(t: Art<V>, key: Key, d: nat)
    requires d <= |key| && Inv(t, key[..d], |key|) && AllAscii(key)
    ensures t.Leaf? ==> |t.key| == |key| && IsBytes(t.key) && IsBytes(key) && t.key[..d] == key[..d]
    ensures t.Inner? ==> InsertOk(t, key, d) && |Path(t, d)| == d + t.header.len
  {
    hide Good, Order, Child, Inv, Wf, Path;
    InvWf(t, key[..d], |key|);
    if t.Inner? { InvPath(t, key[..d], |key|); PathIsAscii(t, key[..d], |key|); }
  }

  lemma PathIsAscii<V>(t: Art<V>, p: Key, n: nat)
    requires Inv(t, p, n) && t.Inner?
    ensures AllAscii(Path(t, |p|))
  {
  }

  /** The position of a key's byte below a node whose whole prefix it matches. */
  lemma PastPrefix<V>(t: Art<V>, key: Key, d: nat)
    requires d <= |key| && Inv(t, key[..d], |key|) && AllAscii(key) && t.Inner?
    requires InsertOk(t, key, d)
    requires t.header.len > 0 ==> PrefixMismatch(t, key, d) >= t.header.len
    ensures d + t.header.len < |key| && Path(t, d) == key[..d + t.header.len] && Good(t.body)
    ensures |t.header.partial| == MAX_PREFIX_LEN
    ensures Ascii(key[d + t.header.len]) && Shaped(t.body)
    ensures Child(t.body, key[d + t.header.len]) == Find(t.body, key[d + t.header.len])
    ensures Child(t.body, key[d + t.header.len]).Some? ==>
              && Inv(Child(t.body, key[d + t.header.len]).value, key[..d + t.header.len + 1], |key|)
              && (t decreases to Child(t.body, key[d + t.header.len]).value)
  {
    hide Good, Order, Child, Inv, HeaderFor, MatchLen, Wf, Path, PrefixMismatch;
    InsertReady(t, key, d);
    if t.header.len > 0 { PrefixMismatchIs(t, key, d); }
    InvPath(t, key[..d], |key|);
    var e := d + t.header.len;
    assert Path(t, d) == key[..e];
    assert key[..e] + [key[e]] == key[..e + 1];
    ChildIsFind(t.body, key[e]);
    if Child(t.body, key[e]).Some? { InvKid(t, key[..d], |key|, key[e]); }
  }

  /** The node with one more leaf, in the same or in a larger layout. */
  function AddLeaf<V>(t: Art<V>, c: nat, key: Key, v: V): Art<V>
    requires t.Inner? && Good(t.body) && c < 256 && |t.header.partial| == MAX_PREFIX_LEN
  {
    hide InRange;
    ChildIsFind(t.body, c);
    GoodSize(t.body);
    var b' := Add(t.body, c, Leaf(key, v));
    Inner(HeaderAfter(t.header, t.body, b'), b')
  }

  /** Where the descent for a key can be: at a sound node below the key's first `d` bytes. */
  ghost predicate Reached<V>(t: Art<V>, key: Key, d: nat) {
    d <= |key| && Inv(t, key[..d], |key|) && AllAscii(key)
  }

  /** What recursive_insert finds at an inner node: a mismatch in the prefix, a child, or a free byte. */
  datatype Finding = Mismatch(at: nat) | Kid(byte: nat) | Free(byte: nat)

  function Examine<V>(t: Art<V>, key: Key, d: nat): (f: Finding)
    requires Reached(t, key, d) && t.Inner?
    ensures f.Mismatch? ==> InsertOk(t, key, d) && f.at < t.header.len && f.at == PrefixMismatch(t, key, d)
    ensures !f.Mismatch? ==>
              && d + t.header.len < |key| && f.byte == key[d + t.header.len] < 256 && Shaped(t.body)
              && (f.Kid? <==> Find(t.body, f.byte).Some?)
    ensures f.Kid? ==>
              && Reached(Find(t.body, f.byte).value, key, d + t.header.len + 1)
              && (t decreases to Find(t.body, f.byte).value)
    ensures f.Free? ==> Good(t.body) && |t.header.partial| == MAX_PREFIX_LEN
  {
    hide Good, Inv, Child, Order, Path, Find, PrefixMismatch, Shaped, Wf, IsBytes, InsertOk;
    InsertReady(t, key, d);
    var r := if t.header.len > 0 then PrefixMismatch(t, key, d) else 0;
    if r < t.header.len then Mismatch(r)
    else
      PastPrefix(t, key, d);
      var c := key[d + t.header.len];
      if Find(t.body, c).Some? then Kid(c) else Free(c)
  }

  /** recursive_insert at a leaf. */
  function InsertAtLeaf<V>(t: Art<V>, key: Key, v: V, d: nat): (Art<V>, Option<V>)
    requires Reached(t, key, d) && t.Leaf?
  {
    hide Inv, AllAscii, IsBytes, SplitLeaf, Path, InsertOk;
    InsertReady(t, key, d);
    if t.key == key then (Leaf(key, v), Some(t.value)) else (SplitLeaf(t, key, v, d), None)
  }

  /** recursive_insert: the new node and, for a key already there, its old value. */
  function Insert<V>(t: Art<V>, key: Key, v: V, d: nat): (Art<V>, Option<V>)
    requires Reached(t, key, d)
    decreases t
  {
    hide *;
    match t
    case Leaf(_, _) => InsertAtLeaf(t, key, v, d)
    case Inner(h, b) =>
      match Examine(t, key, d)
      case Mismatch(r) => (SplitPrefix(t, key, v, d, r), None)
      case Kid(c) =>
        var r := Insert(Find(b, c).value, key, v, d + h.len + 1);
        (Inner(h, Set(b, c, r.0)), r.1)
      case Free(c) => (AddLeaf(t, c, key, v), None)
  }

  // ------------------------------------------------------------------ building nodes

  lemma LeafInv<V>(key: Key, v: V, p: Key)
    requires AllAscii(key) && p <= key
    ensures Inv(Leaf(key, v), p, |key|)
  {
  }

  /** A node whose children are sound below its path is sound. */
  lemma NodeInv<V>(h: Header, b: Body<Art<V>>, p: Key, q: Key, n: nat)
    requires Good(b) && p <= q && |q| == |p| + h.len < n && HeaderFor(h, q[|p|..])
    requires forall c: nat | Child(b, c).Some? :: Inv(Child(b, c).value, q + [c], n)
    ensures Inv(Inner(h, b), p, n) && Path(Inner(h, b), |p|) == q
  {
    hide Good, Order, Child, Inv, HeaderFor, HasKid, Ascending, Shaped, FirstKid, LastKid, Path;
    var t := Inner(h, b);
    NodeWf(h, b, q, n);
    GoodFacts(b);
    EndKidsWf(t);
    EndSteps(t);
    var c := Order(b)[0];
    InvWf(FirstKid(b), q + [c], n);
    var k := Minimum(t).key;
    assert k[..|q|] == q by { assert (q + [c])[..|q|] == q; }
    assert q[|p|..] == k[|p|..|q|];
    InnerInv(t, p, q, n);
  }

  lemma NodeWf<V>(h: Header, b: Body<Art<V>>, q: Key, n: nat)
    requires Good(b) && forall c: nat | Child(b, c).Some? :: Inv(Child(b, c).value, q + [c], n)
    ensures Wf(Inner(h, b))
  {
  }

  lemma InnerInv<V>(t: Art<V>, p: Key, q: Key, n: nat)
    requires Wf(t) && t.Inner? && |q| == |p| + t.header.len < n && p <= q
    requires |Minimum(t).key| == n && q <= Minimum(t).key && AllAscii(Minimum(t).key)
    requires HeaderFor(t.header, Minimum(t).key[|p|..|q|])
    requires forall c: nat | Child(t.body, c).Some? :: Inv(Child(t.body, c).value, q + [c], n)
    ensures Inv(t, p, n) && Path(t, |p|) == q
  {
    hide Good, Child, HeaderFor, Order;
    assert Minimum(t).key[..|q|] == q;
  }

  /** A new NODE4 over two sound nodes. */
  lemma BranchInv<V>(h: Header, c: nat, x: Art<V>, e: nat, y: Art<V>, p: Key, q: Key, n: nat)
    requires Ascii(c) && Ascii(e) && c != e && p <= q && |q| == |p| + h.len < n && HeaderFor(h, q[|p|..])
    requires Inv(x, q + [c], n) && Inv(y, q + [e], n)
    ensures var t := Inner(h, TwoKids(c, x, e, y));
            && Inv(t, p, n)
            && forall k :: Get(t, |p|, k) ==
                           if |q| < |k| && k[|q|] == c then Get(x, |q| + 1, k)
                           else if |q| < |k| && k[|q|] == e then Get(y, |q| + 1, k)
                           else None
  {
    hide Good, Order, Child, Inv, HeaderFor, TwoKids, Get;
    TwoKidsIs(c, x, e, y);
    NodeInv(h, TwoKids(c, x, e, y), p, q, n);
    forall k ensures Get(Inner(h, TwoKids(c, x, e, y)), |p|, k) ==
                     if |q| < |k| && k[|q|] == c then Get(x, |q| + 1, k)
                     else if |q| < |k| && k[|q|] == e then Get(y, |q| + 1, k)
                     else None {
      if |q| < |k| { GetKid(Inner(h, TwoKids(c, x, e, y)), |p|, k); }
      else { GetShort(Inner(h, TwoKids(c, x, e, y)), |p|, k); }
    }
  }

  lemma GetShort<V>(t: Art<V>, d: nat, k: Key)
    requires t.Inner? && d + t.header.len >= |k|
    ensures Get(t, d, k) == None
  {
  }

  /** Moving bytes between a node's prefix and the path above it keeps it sound and changes no lookup. */
  lemma Repath<V>(h: Header, h': Header, b: Body<Art<V>>, p: Key, p': Key, n: nat)
    requires Inv(Inner(h, b), p, n) && |p'| + h'.len == |p| + h.len && p' <= Path(Inner(h, b), |p|)
    requires HeaderFor(h', Path(Inner(h, b), |p|)[|p'|..])
    ensures Inv(Inner(h', b), p', n)
    ensures forall k :: Get(Inner(h', b), |p'|, k) == Get(Inner(h, b), |p|, k)
  {
    hide Good, Order, Child, Inv, HeaderFor, Path, Get, Wf;
    var t := Inner(h, b);
    InvPath(t, p, n);
    forall c: nat | Child(b, c).Some? ensures Inv(Child(b, c).value, Path(t, |p|) + [c], n) { InvKid(t, p, n, c); }
    NodeInv(h', b, p', Path(t, |p|), n);
    forall k ensures Get(Inner(h', b), |p'|, k) == Get(t, |p|, k) {
      SameGet(h, h', b, |p|, |p'|, k);
    }
  }

  lemma SameGet<V>(h: Header, h': Header, b: Body<Art<V>>, d: nat, d': nat, k: Key)
    requires d + h.len == d' + h'.len
    ensures Get(Inner(h', b), d', k) == Get(Inner(h, b), d, k)
  {
  }

  /** The node with one child replaced. */
  ghost function WithKid<V>(t: Art<V>, c: nat, x: Art<V>): Art<V> {
    if t.Inner? && Shaped(t.body) && c < 256 && Find(t.body, c).Some? then Inner(t.header, Set(t.body, c, x)) else t
  }

  lemma WithKidIs<V>(t: Art<V>, c: nat, x: Art<V>)
    requires t.Inner? && Good(t.body) && Child(t.body, c).Some?
    ensures Shaped(t.body) && c < 256 && Find(t.body, c) == Child(t.body, c)
    ensures WithKid(t, c, x) == Inner(t.header, Set(t.body, c, x)) && Good(WithKid(t, c, x).body)
    ensures forall d: nat :: Child(WithKid(t, c, x).body, d) == if d == c then Some(x) else Child(t.body, d)
  {
    hide Find, Shaped, Good;
    GoodSet(t.body, c, x);
  }

  /** Replacing a child by a sound one keeps the node sound and changes the lookups below that child only. */
  lemma ReplaceKid<V>(t: Art<V>, p: Key, n: nat, c: nat, x: Art<V>)
    requires Inv(t, p, n) && t.Inner? && Child(t.body, c).Some? && Inv(x, Path(t, |p|) + [c], n)
    ensures Inv(WithKid(t, c, x), p, n)
    ensures Shaped(t.body) && c < 256 && Find(t.body, c) == Child(t.body, c)
    ensures WithKid(t, c, x) == Inner(t.header, Set(t.body, c, x))
  {
    hide Good, Order, Child, Find, Inv, Path, HeaderFor, Set, Shaped, WithKid, Wf;
    InvPath(t, p, n);
    WithKidIs(t, c, x);
    var t' := WithKid(t, c, x);
    forall d: nat | Child(t'.body, d).Some? ensures Inv(Child(t'.body, d).value, Path(t, |p|) + [d], n) {
      if d != c { InvKid(t, p, n, d); }
    }
    NodeInv(t.header, t'.body, p, Path(t, |p|), n);
  }

  lemma GetReplaced<V>(t: Art<V>, p: Key, n: nat, c: nat, x: Art<V>, k: Key)
    requires Inv(t, p, n) && t.Inner? && Child(t.body, c).Some?
    ensures var e := |p| + t.header.len;
            Get(WithKid(t, c, x), |p|, k) == if e < |k| && k[e] == c then Get(x, e + 1, k) else Get(t, |p|, k)
  {
    hide Good, Order, Child, Find, Inv, Path, Set, Shaped, WithKid, Wf, Get;
    InvPath(t, p, n);
    WithKidIs(t, c, x);
    if |p| + t.header.len < |k| { GetKid(t, |p|, k); GetKid(WithKid(t, c, x), |p|, k); }
    else { GetShort(t, |p|, k); GetShort(WithKid(t, c, x), |p|, k); }
  }

  // ------------------------------------------------------------------ insertion keeps the invariant

  lemma SplitLeafIs<V>(leaf: Art<V>, key: Key, v: V, d: nat)
    requires leaf.Leaf? && d <= |key| == |leaf.key| && leaf.key != key && leaf.key[..d] == key[..d]
    requires AllAscii(key) && AllAscii(leaf.key)
    ensures IsBytes(key) && IsBytes(leaf.key)
    ensures Inv(SplitLeaf(leaf, key, v, d), key[..d], |key|)
    ensures forall k :: Get(SplitLeaf(leaf, key, v, d), d, k) == if k == key then Some(v) else Get(leaf, d, k)
  {
    hide Good, Child, Inv, TwoKids, MatchLen;
    AsciiIsBytes(key);
    AsciiIsBytes(leaf.key);
    var n := MatchLen(leaf.key[d..], key[d..]);
    SplitIndex(leaf.key, key, d);
    var p, q := key[..d], key[..d + n];
    var h := Header(n, Padded(key[d..d + Capped(n)]));
    assert HeaderFor(h, q[d..]) by { assert forall i | 0 <= i < Capped(n) :: q[d..][i] == key[d..d + Capped(n)][i]; }
    LeafInv(leaf.key, leaf.value, q + [leaf.key[d + n]]);
    LeafInv(key, v, q + [key[d + n]]);
    hide Padded;
    BranchInv(h, leaf.key[d + n], leaf, key[d + n], Leaf(key, v), p, q, |key|);
    assert SplitLeaf(leaf, key, v, d) == Inner(h, TwoKids(leaf.key[d + n], leaf, key[d + n], Leaf(key, v)));
  }

  /** What is cut off the prefix is exactly the bytes up to the mismatch. */
  lemma ShortenedIs<V>(t: Art<V>, p: Key, n: nat, r: nat)
    requires Inv(t, p, n) && t.Inner? && r < t.header.len && |t.header.partial| == MAX_PREFIX_LEN
    requires Wf(t) && |p| + t.header.len < |Minimum(t).key|
    ensures Inv(Shortened(t, r, |p|), Path(t, |p|)[..|p| + r + 1], n)
    ensures forall k :: Get(Shortened(t, r, |p|), |p| + r + 1, k) == Get(t, |p|, k)
  {
    hide Good, Order, Child, Inv, Wf, Path, HeaderFor, Overwrite, Get;
    InvPath(t, p, n);
    var q := Path(t, |p|);
    PathIs(t, |p|);
    ShortHeader(t.header, Minimum(t).key, |p|, r);
    Repath(t.header, Shortened(t, r, |p|).header, t.body, p, q[..|p| + r + 1], n);
  }

  lemma ShortHeader(h: Header, l: Key, d: nat, r: nat)
    requires |h.partial| == MAX_PREFIX_LEN && r < h.len && d + h.len < |l| && HeaderFor(h, l[..d + h.len][d..])
    ensures var rest := h.len - (r + 1);
            var from := if h.len <= MAX_PREFIX_LEN then h.partial[r + 1..r + 1 + rest]
                        else l[d + r + 1..d + r + 1 + Capped(rest)];
            HeaderFor(Header(rest, Overwrite(h.partial, 0, from)), l[..d + h.len][d + r + 1..])
  {
  }

  /** The new node: its edges are the byte cut out of the prefix and the key's byte there. */
  lemma SplitBranch<V>(t: Art<V>, key: Key, v: V, d: nat, r: nat)
    requires d <= |key| && Inv(t, key[..d], |key|) && AllAscii(key) && t.Inner? && r < t.header.len
    requires InsertOk(t, key, d)
    requires |Path(t, d)| == d + t.header.len && Path(t, d)[..d + r] == key[..d + r] && Path(t, d)[d + r] != key[d + r]
    ensures d + r < |key| && Inv(SplitPrefix(t, key, v, d, r), key[..d], |key|)
    ensures forall k :: Get(SplitPrefix(t, key, v, d, r), d, k) ==
              if d + r < |k| && k[d + r] == Path(t, d)[d + r] then Get(t, d, k)
              else if d + r < |k| && k[d + r] == key[d + r] then Get(Leaf(key, v), d + r + 1, k)
              else None
  {
    hide Good, Order, Child, Inv, Wf, Path, TwoKids, Get, Shortened, HeaderFor;
    var p, q, path := key[..d], key[..d + r], Path(t, d);
    var h := Header(r, Padded(t.header.partial[..Capped(r)]));
    SplitEdge(t, key, d, r);
    ShortenedIs(t, p, |key|, r);
    PathIsAscii(t, p, |key|);
    assert path[..d + r + 1] == q + [path[d + r]];
    LeafInv(key, v, q + [key[d + r]]);
    BranchInv(h, path[d + r], Shortened(t, r, d), key[d + r], Leaf(key, v), p, q, |key|);
  }

  lemma SplitPrefixIs<V>(t: Art<V>, key: Key, v: V, d: nat, r: nat)
    requires d <= |key| && Inv(t, key[..d], |key|) && AllAscii(key) && t.Inner? && r < t.header.len
    requires InsertOk(t, key, d)
    requires |Path(t, d)| == d + t.header.len && Path(t, d)[..d + r] == key[..d + r] && Path(t, d)[d + r] != key[d + r]
    ensures Inv(SplitPrefix(t, key, v, d, r), key[..d], |key|)
    ensures forall k :: Get(SplitPrefix(t, key, v, d, r), d, k) == if k == key then Some(v) else Get(t, d, k)
  {
    hide Good, Order, Child, Inv, Wf, Path, Get, SplitPrefix, InsertOk, AllAscii;
    SplitBranch(t, key, v, d, r);
    forall k ensures Get(SplitPrefix(t, key, v, d, r), d, k) == if k == key then Some(v) else Get(t, d, k) {
      LeafGet(key, v, d + r + 1, k);
      OnPathByte(t, key, d, d + r, k);
    }
  }

  /** A stored key has the bytes of the path it is on. */
  lemma OnPathByte<V>(t: Art<V>, key: Key, d: nat, i: nat, k: Key)
    requires d <= |key| && Inv(t, key[..d], |key|) && t.Inner? && i < |Path(t, d)|
    ensures Get(t, d, k).Some? ==> i < |k| && k[i] == Path(t, d)[i]
  {
    hide Good, Order, Child, Inv, Wf, Path, Get;
    if Get(t, d, k).Some? { GetMeansPath(t, key[..d], |key|, k); }
  }

  lemma OffPath<V>(t: Art<V>, key: Key, d: nat, r: nat)
    requires d <= |key| && Inv(t, key[..d], |key|) && t.Inner? && |Path(t, d)| <= |key|
    requires d + r < |Path(t, d)| && Path(t, d)[d + r] != key[d + r]
    ensures Get(t, d, key).None?
  {
    hide Good, Order, Child, Inv, Wf, Path, Get;
    if Get(t, d, key).Some? { GetMeansPath(t, key[..d], |key|, key); }
  }

  lemma LeafGet<V>(key: Key, v: V, d: nat, k: Key)
    ensures Get(Leaf(key, v), d, k) == if k == key then Some(v) else None
  {
  }

  /** The byte the old node is filed under, and the new node's header. */
  lemma SplitEdge<V>(t: Art<V>, key: Key, d: nat, r: nat)
    requires d <= |key| && Inv(t, key[..d], |key|) && t.Inner? && r < t.header.len
    requires Wf(t) && |t.header.partial| == MAX_PREFIX_LEN && |Minimum(t).key| == |key| && d + t.header.len < |key|
    requires |Path(t, d)| == d + t.header.len && Path(t, d)[..d + r] == key[..d + r]
    ensures HeaderFor(Header(r, Padded(t.header.partial[..Capped(r)])), key[..d + r][d..])
    ensures Path(t, d)[d + r]
         == if t.header.len <= MAX_PREFIX_LEN then t.header.partial[..t.header.len][r] else Minimum(t).key[d + r]
  {
    hide Good, Order, Child, Inv, Wf, Path;
    InvPath(t, key[..d], |key|);
    PathIs(t, d);
    var q0, q := Path(t, d)[d..], key[..d + r];
    forall i | 0 <= i < Capped(r) ensures t.header.partial[i] == q[d..][i] {
      assert q[d..][i] == q[d + i] == Path(t, d)[..d + r][d + i] == q0[i];
    }
    assert q0[r] == Path(t, d)[d + r];
  }

  lemma HeaderAfterIs<T>(h: Header, a: Body<T>, b: Body<T>, q: seq<nat>)
    requires HeaderFor(h, q)
    ensures HeaderFor(HeaderAfter(h, a, b), q)
  {
  }

  /** Insertion keeps every prefix exact and sets the value of exactly one key. */
  lemma {:induction false} InsertIs<V>(t: Art<V>, key: Key, v: V, d: nat)
    requires d <= |key| && Inv(t, key[..d], |key|) && AllAscii(key)
    ensures Inv(Insert(t, key, v, d).0, key[..d], |key|)
    ensures Insert(t, key, v, d).1 == Get(t, d, key)
    ensures forall k :: Get(Insert(t, key, v, d).0, d, k) == if k == key then Some(v) else Get(t, d, k)
    decreases t
  {
    hide Good, Order, Child, Find, Inv, Wf, Path, TwoKids, Shortened, HeaderFor, PrefixMismatch, Set, Add, SplitLeaf,
      SplitPrefix, Shaped, Capped, WithKid;
    InsertReady(t, key, d);
    var p, n := key[..d], |key|;
    match t
    case Leaf(k, w) =>
      if k == key { LeafInv(key, v, p); } else { InvWf(t, p, n); SplitLeafIs(t, key, v, d); }
    case Inner(h, b) =>
      if Examine(t, key, d).Mismatch? {
        PrefixMismatchIs(t, key, d);
        var r := PrefixMismatch(t, key, d);
        SplitPrefixIs(t, key, v, d, r);
        OffPath(t, key, d, r);
      } else {
        PastPrefix(t, key, d);
        InvPath(t, p, n);
        var e := d + h.len;
        ChildIsFind(b, key[e]);
        if Find(b, key[e]).Some? {
          var kid := Find(b, key[e]).value;
          var r := Insert(kid, key, v, e + 1);
          InsertIs(kid, key, v, e + 1);
          assert key[..e] + [key[e]] == key[..e + 1];
          ReplaceKid(t, p, n, key[e], r.0);
          GetKid(t, d, key);
          forall k ensures Get(Inner(h, Set(b, key[e], r.0)), d, k) == if k == key then Some(v) else Get(t, d, k) {
            GetReplaced(t, p, n, key[e], r.0, k);
          }
        } else {
          InsertHere(t, key, v, d, e);
        }
      }
  }

  lemma InsertHere<V>(t: Art<V>, key: Key, v: V, d: nat, e: nat)
    requires d <= |key| && Inv(t, key[..d], |key|) && AllAscii(key) && t.Inner?
    requires e == d + t.header.len < |key| && Path(t, d) == key[..e] && Good(t.body)
    requires HeaderFor(t.header, key[..e][d..])
    requires Child(t.body, key[e]).None? && Ascii(key[e])
    ensures |t.header.partial| == MAX_PREFIX_LEN
    ensures var t' := AddLeaf(t, key[e], key, v);
            && Inv(t', key[..d], |key|) && Get(t, d, key).None?
            && forall k :: Get(t', d, k) == if k == key then Some(v) else Get(t, d, k)
  {
    hide Good, Order, Child, Find, Inv, Path, HeaderFor, Add, Shaped, Get, HeaderAfter;
    GoodAdd(t.body, key[e], Leaf(key, v));
    HeaderPartial(t.header, key[..e][d..]);
    var b' := Add(t.body, key[e], Leaf(key, v));
    var h' := HeaderAfter(t.header, t.body, b');
    HeaderAfterIs(t.header, t.body, b', key[..e][d..]);
    forall c: nat | Child(b', c).Some? ensures Inv(Child(b', c).value, key[..e] + [c], |key|) {
      if c == key[e] { LeafInv(key, v, key[..e] + [c]); } else { InvKid(t, key[..d], |key|, c); }
    }
    HeaderLen(t.header, t.body, b');
    NodeInv(h', b', key[..d], key[..e], |key|);
    var t' := Inner(h', b');
    GetKid(t, d, key);
    forall k ensures Get(t', d, k) == if k == key then Some(v) else Get(t, d, k) {
      LeafGet(key, v, e + 1, k);
      if e < |k| { GetKid(t, d, k); GetKid(t', d, k); } else { GetShort(t, d, k); GetShort(t', d, k); }
    }
  }

  lemma HeaderPartial(h: Header, q: seq<nat>)
    requires HeaderFor(h, q)
    ensures |h.partial| == MAX_PREFIX_LEN && h.len == |q|
  {
  }

  lemma HeaderLen<T>(h: Header, a: Body<T>, b: Body<T>)
    requires |h.partial| == MAX_PREFIX_LEN
    ensures HeaderAfter(h, a, b).len == h.len
  {
  }

  // ------------------------------------------------------------------ deletion

  /** The prefix array of a NODE4's last child after the NODE4, its last byte and the child are joined. */
  function JoinedPartial(h: Header, c: nat, kid: Header): seq<nat>
    requires |h.partial| == MAX_PREFIX_LEN == |kid.partial|
  {
    var p0 := if h.len < MAX_PREFIX_LEN then Overwrite(h.partial, h.len, [c]) else h.partial;
    var n0 := if h.len < MAX_PREFIX_LEN then h.len + 1 else h.len;
    var sub := if n0 < MAX_PREFIX_LEN then MinNat(kid.len, MAX_PREFIX_LEN - n0) else 0;
    var p1 := if n0 < MAX_PREFIX_LEN then Overwrite(p0, n0, kid.partial[..sub]) else p0;
    Overwrite(kid.partial, 0, p1[..Capped(n0 + sub)])
  }

  /** The part of remove_child4 that replaces a node with one child by that child. */
  function Joined<V>(h: Header, c: nat, kid: Art<V>): Art<V>
    requires |h.partial| == MAX_PREFIX_LEN && (kid.Inner? ==> |kid.header.partial| == MAX_PREFIX_LEN)
  {
    match kid
    case Leaf(_, _) => kid
    case Inner(hk, b) => Inner(Header(hk.len + h.len + 1, JoinedPartial(h, c, hk)), b)
  }

  /** The joined header describes the concatenation of the two prefixes around the byte. */
  lemma JoinedHeader(h: Header, c: nat, kid: Header, q: seq<nat>, q': seq<nat>)
    requires HeaderFor(h, q) && HeaderFor(kid, q')
    ensures HeaderFor(Header(kid.len + h.len + 1, JoinedPartial(h, c, kid)), q + [c] + q')
  {
    var r, all := JoinedPartial(h, c, kid), q + [c] + q';
    forall i | 0 <= i < Capped(|all|) ensures r[i] == all[i] {
      if h.len >= MAX_PREFIX_LEN { JoinedLong(h, c, kid, i); } else { JoinedShort(h, c, kid, i); }
      assert all[i] == if i < |q| then q[i] else if i == |q| then c else q'[i - |q| - 1];
    }
  }

  lemma JoinedLong(h: Header, c: nat, kid: Header, i: nat)
    requires |h.partial| == MAX_PREFIX_LEN == |kid.partial| && h.len >= MAX_PREFIX_LEN && i < MAX_PREFIX_LEN
    ensures JoinedPartial(h, c, kid)[i] == h.partial[i]
  {
  }

  lemma JoinedShort(h: Header, c: nat, kid: Header, i: nat)
    requires |h.partial| == MAX_PREFIX_LEN == |kid.partial| && h.len < MAX_PREFIX_LEN
    requires i < Capped(h.len + 1 + kid.len)
    ensures JoinedPartial(h, c, kid)[i] ==
            if i < h.len then h.partial[i] else if i == h.len then c else kid.partial[i - h.len - 1]
  {
  }

  /** What remove_child may rely on. */
  ghost predicate RemoveReady<V>(t: Art<V>) {
    && Wf(t) && t.Inner? && |t.header.partial| == MAX_PREFIX_LEN
    && forall d: nat | Child(t.body, d).Some? && Child(t.body, d).value.Inner? ::
         |Child(t.body, d).value.header.partial| == MAX_PREFIX_LEN
  }

  /** remove_child. */
  function RemoveKid<V>(t: Art<V>, c: nat): Art<V>
    requires RemoveReady(t) && Child(t.body, c).Some?
  {
    GoodRemove(t.body, c);
    var b' := Remove(t.body, c);
    if b'.B4? && |b'.keys| == 1 then
      LastKidOf(t.body, c);
      Joined(t.header, b'.keys[0], b'.kids[0])
    else Inner(HeaderAfter(t.header, t.body, b'), b')
  }

  /** The child that remains when a NODE4 has one left. */
  lemma LastKidOf<T>(b: Body<T>, c: nat)
    requires Good(b) && Child(b, c).Some? && Shaped(b) && c < 256 && Find(b, c).Some? && Num(b) > 0
    requires Remove(b, c).B4? && |Remove(b, c).keys| == 1
    ensures var b' := Remove(b, c);
            && |b'.kids| == 1 && b'.keys[0] != c && Child(b, b'.keys[0]) == Some(b'.kids[0])
            && forall d: nat | d != c && d != b'.keys[0] :: Child(b, d).None?
  {
    hide Good, Find, Remove, Shaped;
    GoodRemove(b, c);
    OneLeft(Remove(b, c));
  }

  lemma OneLeft<T>(b: Body<T>)
    requires BodyInv(b) && b.B4? && |b.keys| == 1
    ensures |b.kids| == 1 && forall d: nat :: Child(b, d) == if d == b.keys[0] then Some(b.kids[0]) else None
  {
  }

  lemma RemoveKidIs<V>(t: Art<V>, p: Key, n: nat, c: nat)
    requires Inv(t, p, n) && t.Inner? && Child(t.body, c).Some?
    ensures RemoveReady(t) && Inv(RemoveKid(t, c), p, n)
    ensures forall k :: Get(RemoveKid(t, c), |p|, k) ==
                        var e := |p| + t.header.len; if e < |k| && k[e] == c then None else Get(t, |p|, k)
  {
    hide Good, Order, Child, Find, Inv, Path, Remove, Shaped, Wf, Get, HeaderAfter, Joined;
    RemoveIsReady(t, p, n);
    InvPath(t, p, n);
    GoodRemove(t.body, c);
    var b' := Remove(t.body, c);
    if b'.B4? && |b'.keys| == 1 {
      LastKidOf(t.body, c);
      JoinIs(t, p, n, c, b'.keys[0], b'.kids[0]);
    } else {
      ShrinkIs(t, p, n, c, b');
    }
  }

  lemma RemoveIsReady<V>(t: Art<V>, p: Key, n: nat)
    requires Inv(t, p, n) && t.Inner?
    ensures RemoveReady(t)
  {
  }

  /** The node stays, in the same or in a smaller layout. */
  lemma ShrinkIs<V>(t: Art<V>, p: Key, n: nat, c: nat, b': Body<Art<V>>)
    requires Inv(t, p, n) && t.Inner? && |t.header.partial| == MAX_PREFIX_LEN && Good(b')
    requires forall d: nat :: Child(b', d) == if d == c then None else Child(t.body, d)
    ensures var t' := Inner(HeaderAfter(t.header, t.body, b'), b');
            && Inv(t', p, n)
            && var e := |p| + t.header.len;
               forall k :: Get(t', |p|, k) == if e < |k| && k[e] == c then None else Get(t, |p|, k)
  {
    hide Good, Order, Child, Find, Inv, Path, HeaderFor, Shaped, Wf, Get, HeaderAfter;
    InvPath(t, p, n);
    HeaderLen(t.header, t.body, b');
    HeaderAfterIs(t.header, t.body, b', Path(t, |p|)[|p|..]);
    forall d: nat | Child(b', d).Some? ensures Inv(Child(b', d).value, Path(t, |p|) + [d], n) { InvKid(t, p, n, d); }
    var t' := Inner(HeaderAfter(t.header, t.body, b'), b');
    NodeInv(t'.header, b', p, Path(t, |p|), n);
    var e := |p| + t.header.len;
    forall k ensures Get(t', |p|, k) == if e < |k| && k[e] == c then None else Get(t, |p|, k) {
      if |p| + t.header.len < |k| { GetKid(t, |p|, k); GetKid(t', |p|, k); }
      else { GetShort(t, |p|, k); GetShort(t', |p|, k); }
    }
  }

  /** The last child takes the node's place, with the node's prefix and byte before its own. */
  lemma JoinIs<V>(t: Art<V>, p: Key, n: nat, c: nat, a: nat, kid: Art<V>)
    requires Inv(t, p, n) && t.Inner? && RemoveReady(t)
    requires Child(t.body, a) == Some(kid) && a != c && forall d: nat | d != c && d != a :: Child(t.body, d).None?
    ensures kid.Inner? ==> |kid.header.partial| == MAX_PREFIX_LEN
    ensures Inv(Joined(t.header, a, kid), p, n)
    ensures forall k :: Get(Joined(t.header, a, kid), |p|, k) ==
                        var e := |p| + t.header.len; if e < |k| && k[e] == c then None else Get(t, |p|, k)
  {
    hide Good, Order, Child, Find, Inv, Path, HeaderFor, Shaped, Wf, Get, JoinedPartial;
    InvPath(t, p, n);
    InvKid(t, p, n, a);
    var q := Path(t, |p|) + [a];
    JoinedInv(t, p, n, a, kid);
    forall k ensures Get(Joined(t.header, a, kid), |p|, k) ==
                     var e := |p| + t.header.len; if e < |k| && k[e] == c then None else Get(t, |p|, k) {
      if Get(kid, |q|, k).Some? { GetMeansPath(kid, q, n, k); assert k[|q| - 1] == q[|q| - 1]; }
      if |p| + t.header.len < |k| { GetKid(t, |p|, k); } else { GetShort(t, |p|, k); }
    }
  }

  lemma JoinedInv<V>(t: Art<V>, p: Key, n: nat, a: nat, kid: Art<V>)
    requires Inv(t, p, n) && t.Inner? && Child(t.body, a) == Some(kid) && |t.header.partial| == MAX_PREFIX_LEN
    ensures kid.Inner? ==> |kid.header.partial| == MAX_PREFIX_LEN
    ensures Inv(Joined(t.header, a, kid), p, n)
    ensures forall k :: Get(Joined(t.header, a, kid), |p|, k) == Get(kid, |p| + t.header.len + 1, k)
  {
    hide Good, Order, Child, Find, Inv, Path, HeaderFor, Shaped, Wf, JoinedPartial;
    InvPath(t, p, n);
    InvKid(t, p, n, a);
    var q := Path(t, |p|) + [a];
    match kid
    case Leaf(key, v) =>
      InvWf(kid, q, n);
      LeafInv(key, v, p);
    case Inner(hk, b) =>
      InvPath(kid, q, n);
      var path := Path(kid, |q|);
      HeaderPartial(t.header, Path(t, |p|)[|p|..]);
      HeaderPartial(hk, path[|q|..]);
      JoinedHeader(t.header, a, hk, Path(t, |p|)[|p|..], path[|q|..]);
      assert path == q + path[|q|..];
      assert path[|p|..] == Path(t, |p|)[|p|..] + [a] + path[|q|..];
      Repath(hk, Joined(t.header, a, kid).header, b, q, p, n);
  }

  /** recursive_delete: what the reference to the node becomes, and the value of the leaf taken out. */
  function Delete<V>(t: Art<V>, key: Key, d: nat, ghost p: Key): (Option<Art<V>>, Option<V>)
    requires Inv(t, p, |key|) && |p| == d && IsBytes(key)
    decreases t
  {
    match t
    case Leaf(k, v) => if k == key then (None, Some(v)) else (Some(t), None)
    case Inner(h, b) =>
      InvPath(t, p, |key|);
      GoodFacts(b);
      if h.len > 0 && CheckPrefix(h, key, d) != Capped(h.len) then (Some(t), None)
      else
        var c := key[d + h.len];
        ChildIsFind(b, c);
        if Find(b, c).None? then (Some(t), None)
        else if Find(b, c).value.Leaf? then
          RemoveIsReady(t, p, |key|);
          if Find(b, c).value.key == key then (Some(RemoveKid(t, c)), Some(Find(b, c).value.value))
          else (Some(t), None)
        else
          InvKid(t, p, |key|, c);
          var r := Delete(Find(b, c).value, key, d + h.len + 1, Path(t, d) + [c]);
          (Some(Inner(h, Set(b, c, if r.0.Some? then r.0.value else Find(b, c).value))), r.1)
  }

  /** Deletion removes exactly one key, or leaves the tree as it is when the key is not there. */
  lemma {:induction false} DeleteIs<V>(t: Art<V>, key: Key, d: nat, p: Key)
    requires Inv(t, p, |key|) && |p| == d && IsBytes(key)
    ensures var r := Delete(t, key, d, p);
            && r.1 == Get(t, d, key)
            && (r.1.None? ==> r.0 == Some(t))
            && (r.0.None? <==> t.Leaf? && t.key == key)
            && (r.0.Some? ==> Inv(r.0.value, p, |key|))
            && (r.0.Some? ==> forall k :: Get(r.0.value, d, k) == if k == key then None else Get(t, d, k))
    decreases t
  {
    hide Good, Order, Child, Find, Path, Inv, HeaderFor, CheckPrefix, Shaped, RemoveKid, Set, Wf, RemoveReady;
    match t
    case Leaf(k, v) =>
    case Inner(h, b) =>
      InvPath(t, p, |key|);
      var c := key[d + h.len];
      ChildIsFind(b, c);
      GetKid(t, d, key);
      if Get(t, d, key).Some? {
        GetMeansPath(t, p, |key|, key);
        PathPasses(t, p, key);
      }
      if Find(b, c).Some? {
        var kid := Find(b, c).value;
        if kid.Leaf? {
          RemoveIsReady(t, p, |key|);
          DeleteLeaf(t, p, key, kid);
        } else {
          InvKid(t, p, |key|, c);
          DeleteIs(kid, key, d + h.len + 1, Path(t, d) + [c]);
          var r := Delete(kid, key, d + h.len + 1, Path(t, d) + [c]);
          DeleteBelow(t, p, key, kid, r.0.value, d + h.len + 1);
          SetSame(b, c);
        }
      }
  }

  lemma DeleteLeaf<V>(t: Art<V>, p: Key, key: Key, kid: Art<V>)
    requires Inv(t, p, |key|) && t.Inner? && |p| + t.header.len < |key| && RemoveReady(t)
    requires Child(t.body, key[|p| + t.header.len]) == Some(kid) && kid.Leaf?
    ensures kid.key != key ==> Get(t, |p|, key) == None
    ensures kid.key == key ==>
              && Get(t, |p|, key) == Some(kid.value)
              && Inv(RemoveKid(t, key[|p| + t.header.len]), p, |key|)
              && forall k :: Get(RemoveKid(t, key[|p| + t.header.len]), |p|, k)
                          == if k == key then None else Get(t, |p|, k)
  {
    hide Good, Order, Child, Find, Path, Inv, Shaped, RemoveKid, Wf, RemoveReady, Get;
    var e := |p| + t.header.len;
    var c := key[e];
    GetKid(t, |p|, key);
    LeafGet(kid.key, kid.value, e + 1, key);
    RemoveKidIs(t, p, |key|, c);
    if kid.key == key {
      forall k ensures Get(RemoveKid(t, c), |p|, k) == if k == key then None else Get(t, |p|, k) {
        LeafGet(kid.key, kid.value, e + 1, k);
        if e < |k| { GetKid(t, |p|, k); }
      }
    }
  }

  lemma DeleteBelow<V>(t: Art<V>, p: Key, key: Key, kid: Art<V>, x: Art<V>, e: nat)
    requires Inv(t, p, |key|) && t.Inner? && |p| + t.header.len + 1 == e <= |key|
    requires Child(t.body, key[e - 1]) == Some(kid) && Inv(x, Path(t, |p|) + [key[e - 1]], |key|)
    requires forall k :: Get(x, e, k) == if k == key then None else Get(kid, e, k)
    ensures var c := key[e - 1];
            && Shaped(t.body) && c < 256 && Find(t.body, c) == Child(t.body, c)
            && var t' := Inner(t.header, Set(t.body, c, x));
               && Inv(t', p, |key|)
               && forall k :: Get(t', |p|, k) == if k == key then None else Get(t, |p|, k)
  {
    hide Good, Order, Child, Find, Path, Inv, Shaped, Set, Wf, Get, WithKid;
    var c := key[e - 1];
    ReplaceKid(t, p, |key|, c, x);
    forall k ensures Get(WithKid(t, c, x), |p|, k) == if k == key then None else Get(t, |p|, k) {
      GetReplaced(t, p, |key|, c, x, k);
      if e <= |k| { GetKid(t, |p|, k); }
    }
  }
}
