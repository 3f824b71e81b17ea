/** The whole radix tree: its size, its operations as a map, ordered iteration, and runs of operations. */
module ArtMap {
  import opened Basics
  import opened ArtBody
  import opened ArtTree
  import opened ArtOps

  /** art_tree. */
  datatype Tree<+V> = Tree(root: Option<Art<V>>, size: nat)

  ghost predicate TreeInv<V>(t: Tree<V>, n: nat) {
    && (t.root.Some? ==> Inv(t.root.value, [], n))
    && t.size == |Contents(t)|
  }

  ghost function Contents<V>(t: Tree<V>): map<Key, V> {
    if t.root.Some? && Wf(t.root.value) then Abs(t.root.value) else map[]
  }

  ghost function Lookup<V>(m: map<Key, V>, k: Key): Option<V> {
    if k in m then Some(m[k]) else None
  }

  lemma ContentsIsGet<V>(t: Tree<V>, n: nat)
    requires t.root.Some? && Inv(t.root.value, [], n)
    ensures forall k :: Get(t.root.value, 0, k) == Lookup(Contents(t), k)
  {
    hide Inv, Get, Abs;
    InvWf(t.root.value, [], n);
    AbsIsGet(t.root.value, [], n);
  }

  /** art_insert. */
  function ArtInsert<V>(t: Tree<V>, key: Key, v: V): (Tree<V>, Option<V>)
    requires t.root.Some? ==> Inv(t.root.value, [], |key|)
    requires AllAscii(key)
  {
    match t.root
    case None => (Tree(Some(Leaf(key, v)), t.size + 1), None)
    case Some(n) =>
      assert key[..0] == [];
      var r := Insert(n, key, v, 0);
      (Tree(Some(r.0), if r.1.None? then t.size + 1 else t.size), r.1)
  }

  /** art_delete. */
  function ArtDelete<V>(t: Tree<V>, key: Key): (Tree<V>, Option<V>)
    requires t.root.Some? ==> Inv(t.root.value, [], |key|)
    requires IsBytes(key)
  {
    match t.root
    case None => (t, None)
    case Some(n) =>
      var r := Delete(n, key, 0, []);
      (Tree(r.0, if r.1.Some? && t.size > 0 then t.size - 1 else t.size), r.1)
  }

  function ArtSearch<V>(t: Tree<V>, key: Key): Option<V>
    requires t.root.Some? ==> Inv(t.root.value, [], |key|)
    requires IsBytes(key)
  {
    if t.root.None? then None else Search(t.root.value, key, 0, [])
  }

  lemma MapsEqual<V>(a: map<Key, V>, b: map<Key, V>)
    requires forall k :: Lookup(a, k) == Lookup(b, k)
    ensures a == b
  {
    forall k ensures k in a <==> k in b { assert Lookup(a, k) == Lookup(b, k); }
    forall k | k in a ensures a[k] == b[k] { assert Lookup(a, k) == Lookup(b, k); }
  }

  /** art_search is lookup in the map. */
  lemma SearchRefines<V>(t: Tree<V>, key: Key)
    requires TreeInv(t, |key|) && IsBytes(key)
    ensures ArtSearch(t, key) == Lookup(Contents(t), key)
  {
    hide Inv, Get, Contents, Search;
    if t.root.Some? {
      SearchIsGet(t.root.value, key, 0, []);
      ContentsIsGet(t, |key|);
    } else {
      assert Contents(t) == map[] by { EmptyContents(t); }
    }
  }

  lemma EmptyContents<V>(t: Tree<V>)
    requires t.root.None?
    ensures Contents(t) == map[]
  {
  }

  /** art_insert updates the map, returns the old value, and counts. */
  lemma InsertRefines<V>(t: Tree<V>, key: Key, v: V)
    requires TreeInv(t, |key|) && AllAscii(key)
    ensures var r := ArtInsert(t, key, v);
            TreeInv(r.0, |key|) && Contents(r.0) == Contents(t)[key := v] && r.1 == Lookup(Contents(t), key)
  {
    hide Inv, Get, Contents, Insert;
    var t' := ArtInsert(t, key, v).0;
    assert key[..0] == [];
    if t.root.Some? {
      ContentsIsGet(t, |key|);
      InsertIs(t.root.value, key, v, 0);
    } else {
      EmptyContents(t);
      LeafInv(key, v, []);
    }
    ContentsIsGet(t', |key|);
    forall k ensures Lookup(Contents(t'), k) == Lookup(Contents(t)[key := v], k) {
      LeafGet(key, v, 0, k);
    }
    MapsEqual(Contents(t'), Contents(t)[key := v]);
  }

  /** art_delete removes the key from the map, returns its value, and counts. */
  lemma DeleteRefines<V>(t: Tree<V>, key: Key)
    requires TreeInv(t, |key|) && IsBytes(key)
    ensures var r := ArtDelete(t, key);
            TreeInv(r.0, |key|) && Contents(r.0) == Contents(t) - {key} && r.1 == Lookup(Contents(t), key)
  {
    hide Inv, Get, Contents, Delete;
    var t' := ArtDelete(t, key).0;
    if t.root.Some? {
      ContentsIsGet(t, |key|);
      DeleteIs(t.root.value, key, 0, []);
      if t'.root.Some? {
        ContentsIsGet(t', |key|);
      } else {
        EmptyContents(t');
        LeafGet(key, t.root.value.value, 0, key);
      }
      forall k ensures Lookup(Contents(t'), k) == Lookup(Contents(t) - {key}, k) {
        if t'.root.None? { LeafGet(key, t.root.value.value, 0, k); }
      }
      MapsEqual(Contents(t'), Contents(t) - {key});
      CardinalityWithout(Contents(t), key);
    } else {
      EmptyContents(t);
    }
  }

  lemma CardinalityWithout<V>(m: map<Key, V>, key: Key)
    ensures |m - {key}| == if key in m then |m| - 1 else |m|
  {
  }

  // ------------------------------------------------------------------ runs

  datatype Op<+V> = InsertOp(key: Key, value: V) | DeleteOp(key: Key) | SearchOp(key: Key)

  ghost predicate OpOk<V>(op: Op<V>, n: nat) {
    |op.key| == n && AllAscii(op.key) && IsBytes(op.key)
  }

  ghost function Step<V>(t: Tree<V>, op: Op<V>): (Tree<V>, Option<V>)
    requires OpOk(op, |op.key|) && (t.root.Some? ==> Inv(t.root.value, [], |op.key|))
  {
    match op
    case InsertOp(k, v) => ArtInsert(t, k, v)
    case DeleteOp(k) => ArtDelete(t, k)
    case SearchOp(k) => (t, ArtSearch(t, k))
  }

  ghost function MapStep<V>(m: map<Key, V>, op: Op<V>): (map<Key, V>, Option<V>) {
    match op
    case InsertOp(k, v) => (m[k := v], Lookup(m, k))
    case DeleteOp(k) => (m - {k}, Lookup(m, k))
    case SearchOp(k) => (m, Lookup(m, k))
  }

  lemma StepRefines<V>(t: Tree<V>, op: Op<V>, n: nat)
    requires TreeInv(t, n) && OpOk(op, n)
    ensures var r := Step(t, op);
            TreeInv(r.0, n) && (Contents(r.0), r.1) == MapStep(Contents(t), op)
  {
    hide TreeInv, Contents, Lookup, Inv;
    assert t.root.Some? ==> Inv(t.root.value, [], n) by { RootInv(t, n); }
    match op
    case InsertOp(k, v) => InsertRefines(t, k, v);
    case DeleteOp(k) => DeleteRefines(t, k);
    case SearchOp(k) => SearchRefines(t, k);
  }

  lemma RootInv<V>(t: Tree<V>, n: nat)
    requires TreeInv(t, n)
    ensures t.root.Some? ==> Inv(t.root.value, [], n)
  {
  }

  lemma TreeSize<V>(t: Tree<V>, n: nat)
    requires TreeInv(t, n)
    ensures t.size == |Contents(t)|
  {
  }

  /** The results of a run of operations, last one last. */
  ghost function MapResults<V>(m: map<Key, V>, ops: seq<Op<V>>): (map<Key, V>, seq<Option<V>>)
    decreases |ops|
  {
    if ops == [] then (m, [])
    else
      var r := MapStep(m, ops[0]);
      var rest := MapResults(r.0, ops[1..]);
      (rest.0, [r.1] + rest.1)
  }

  ghost function Results<V>(t: Tree<V>, ops: seq<Op<V>>, n: nat): (Tree<V>, seq<Option<V>>)
    requires TreeInv(t, n) && forall op | op in ops :: OpOk(op, n)
    decreases |ops|
  {
    if ops == [] then (t, [])
    else
      StepRefines(t, ops[0], n);
      var r := Step(t, ops[0]);
      var rest := Results(r.0, ops[1..], n);
      (rest.0, [r.1] + rest.1)
  }

  /** Every run of inserts, deletes and searches answers as a map does, and the size is the map's. */
  lemma {:induction false} RunRefinesMap<V>(t: Tree<V>, ops: seq<Op<V>>, n: nat)
    requires TreeInv(t, n) && forall op | op in ops :: OpOk(op, n)
    ensures var r, m := Results(t, ops, n), MapResults(Contents(t), ops);
            Contents(r.0) == m.0 && r.1 == m.1 && r.0.size == |m.0| && TreeInv(r.0, n)
    decreases |ops|
  {
    hide Contents, Step, MapStep, TreeInv, Inv;
    RootInv(t, n);
    TreeSize(t, n);
    if ops != [] {
      StepRefines(t, ops[0], n);
      RunRefinesMap(Step(t, ops[0]).0, ops[1..], n);
    }
  }

  // ------------------------------------------------------------------ prefixes, extremes, iteration

  /** The prefix of every inner node is exactly what its keys share past the depth, of which ten bytes are stored. */
  lemma PrefixIsExact<V>(t: Art<V>, p: Key, n: nat)
    requires Inv(t, p, n) && t.Inner?
    ensures Wf(t)
    ensures var e, a, z := |p| + t.header.len, Minimum(t).key, Maximum(t).key;
            && e < n && |a| == |z| == n && a in Abs(t) && z in Abs(t) && a[e] != z[e]
            && (forall k | k in Abs(t) :: |k| == n && k[..e] == a[..e])
            && |t.header.partial| == MAX_PREFIX_LEN
            && t.header.partial[..Capped(t.header.len)] == a[|p|..e][..Capped(t.header.len)]
  {
    hide Good, Order, Child, Path, Inv, Get, HasKid, FirstKid, LastKid, Shaped, Abs, Items, Wf;
    InvWf(t, p, n);
    InvPath(t, p, n);
    AbsIsGet(t, p, n);
    PathIs(t, |p|);
    EndBytes(t, p, n);
    var e := |p| + t.header.len;
    forall k | k in Abs(t) ensures |k| == n && k[..e] == Minimum(t).key[..e] { GetMeansPath(t, p, n, k); }
    assert Minimum(t).key[|p|..e] == Path(t, |p|)[|p|..];
  }

  lemma EndBytes<V>(t: Art<V>, p: Key, n: nat)
    requires Inv(t, p, n) && t.Inner? && Wf(t)
    ensures var e, a, z := |p| + t.header.len, Minimum(t).key, Maximum(t).key;
            e < n && |a| == |z| == n && Get(t, |p|, a).Some? && Get(t, |p|, z).Some? && a[e] != z[e]
  {
    hide Good, Order, Child, Path, Inv, Get, HasKid, FirstKid, LastKid, Shaped, Items, Wf;
    InvPath(t, p, n);
    EndKidsWf(t);
    EndSteps(t);
    EndsAreExtreme(t);
    ItemsAreGets(t, p, n, Minimum(t).key, Minimum(t).value);
    ItemsAreGets(t, p, n, Maximum(t).key, Maximum(t).value);
    EndOrder(t);
    EndBelow(t, p, n, Order(t.body)[0], FirstKid(t.body), Minimum(t).key, Minimum(t).value);
    EndsAreExtreme(FirstKid(t.body));
    EndsAreExtreme(LastKid(t.body));
    EndBelow(t, p, n, Order(t.body)[0], FirstKid(t.body), Minimum(t).key, Minimum(t).value);
    EndBelow(t, p, n, Order(t.body)[|Order(t.body)| - 1], LastKid(t.body), Maximum(t).key, Maximum(t).value);
  }

  lemma EndOrder<V>(t: Art<V>)
    requires Wf(t) && t.Inner?
    ensures Shaped(t.body) && |Order(t.body)| >= 2 && Order(t.body)[0] < Order(t.body)[|Order(t.body)| - 1]
  {
    hide Good, Order, Child, HasKid, FirstKid, LastKid, Shaped;
    GoodFacts(t.body);
  }

  lemma EndBelow<V>(t: Art<V>, p: Key, n: nat, c: nat, kid: Art<V>, k: Key, v: V)
    requires Inv(t, p, n) && t.Inner? && Child(t.body, c) == Some(kid) && Wf(kid)
    ensures (k, v) in Items(kid) ==> |p| + t.header.len < |k| == n && k[|p| + t.header.len] == c
  {
    hide Good, Order, Child, Path, Inv, Get, Shaped, Items, Wf;
    InvPath(t, p, n);
    InvKid(t, p, n, c);
    var q := Path(t, |p|) + [c];
    ItemsAreGets(kid, q, n, k, v);
    if Get(kid, |q|, k).Some? {
      GetMeansPath(kid, q, n, k);
      assert k[|q| - 1] == q[|q| - 1];
    }
  }

  /** art_minimum and art_maximum return the least and the greatest key stored. */
  lemma ExtremesAreExtreme<V>(t: Tree<V>, n: nat)
    requires TreeInv(t, n) && t.root.Some?
    ensures Wf(t.root.value)
    ensures var a, z := Minimum(t.root.value), Maximum(t.root.value);
            && Lookup(Contents(t), a.key) == Some(a.value) && Lookup(Contents(t), z.key) == Some(z.value)
            && forall k | k in Contents(t) :: (k == a.key || Less(a.key, k)) && (k == z.key || Less(k, z.key))
  {
    hide Inv, Get, Items, Less, Contents, Wf, Minimum, Maximum;
    var r := t.root.value;
    InvWf(r, [], n);
    EndsAreExtreme(r);
    ItemsAscend(r, [], n);
    ContentsIsGet(t, n);
    var s := Items(r);
    ItemsAreGets(r, [], n, s[0].0, s[0].1);
    ItemsAreGets(r, [], n, s[|s| - 1].0, s[|s| - 1].1);
    forall k | k in Contents(t)
      ensures (k == s[0].0 || Less(s[0].0, k)) && (k == s[|s| - 1].0 || Less(k, s[|s| - 1].0))
    {
      ItemsAreGets(r, [], n, k, Contents(t)[k]);
      var i :| 0 <= i < |s| && s[i] == (k, Contents(t)[k]);
    }
  }
}
