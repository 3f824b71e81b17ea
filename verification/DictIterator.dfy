/**
  The safe iterator of redisdict.c: while one is running no bucket is moved, and a run of dictNext
  calls returns every entry that stays exactly once, whatever else is added, deleted or resized
  between the calls.
 */
module DictIterator {
  import opened Basics
  import opened DictTable
  import opened DictOps
  import opened DictClass

  /** `entry` and `nextEntry` are pointers: addresses of entries. */
  datatype Iter = Iter(table: nat, index: int, entry: Option<nat>, nextEntry: Option<nat>)

  const NewIter := Iter(0, -1, None, None)

  function Side(d: Dict, table: nat): Table {
    if table == 0 then d.t0 else d.t1
  }

  /** The chain the iterator is in. */
  function Current(d: Dict, it: Iter): Chain {
    if 0 <= it.index < Size(Side(d, it.table)) then Side(d, it.table).buckets[it.index] else []
  }

  // ------------------------------------------------------------------ chains by address

  /** The entry at an address, and what follows it. */
  function From(c: Chain, id: nat): Chain {
    if c == [] then [] else if c[0].id == id then c else From(c[1..], id)
  }

  /** The chain from the pointer on. */
  function Rest(c: Chain, p: Option<nat>): Chain {
    if p.None? then [] else From(c, p.value)
  }

  function HeadOf(c: Chain): Option<nat> {
    if c == [] then None else Some(c[0].id)
  }

  function NextOf(c: Chain, id: nat): Option<nat> {
    var r := From(c, id);
    if |r| < 2 then None else Some(r[1].id)
  }

  ghost predicate DistinctIds(c: Chain) {
    forall i, j | 0 <= i < j < |c| :: c[i].id != c[j].id
  }

  lemma {:induction false} FromIs(c: Chain, id: nat)
    ensures (exists e :: e in c && e.id == id) <==> From(c, id) != []
    ensures From(c, id) != [] ==> From(c, id)[0].id == id
    ensures forall e | e in From(c, id) :: e in c
    ensures DistinctIds(c) ==> DistinctIds(From(c, id))
    ensures DistinctKeys(c) ==> DistinctKeys(From(c, id))
  {
    if c != [] {
      assert c == [c[0]] + c[1..];
      FromIs(c[1..], id);
    }
  }

  /** Behind the entry at an address begins the chain from its successor on. */
  lemma {:induction false} RestOfNext(c: Chain, id: nat)
    requires DistinctIds(c) && From(c, id) != []
    ensures Rest(c, NextOf(c, id)) == From(c, id)[1..]
  {
    if c[0].id == id {
      if |c| >= 2 {
        assert c[1..][0] == c[1];
        assert From(c, c[1].id) == From(c[1..], c[1].id) == c[1..];
      }
    } else {
      RestOfNext(c[1..], id);
      var p := NextOf(c, id);
      assert NextOf(c[1..], id) == p;
      if p.Some? {
        FromIs(c[1..], id);
        var r := From(c[1..], id);
        assert r[1] in c[1..];
        assert c[0].id != p.value by {
          var i :| 0 <= i < |c[1..]| && c[1..][i] == r[1];
          assert c[i + 1] == r[1];
        }
      }
    }
  }

  // ------------------------------------------------------------------ dictNext

  /** Go to the next non-empty bucket of the table. */
  function Enter(d: Dict, table: nat, i: nat): (Iter, Option<Entry>) {
    var t := Side(d, table);
    var j := FirstNonEmpty(t.buckets, i);
    if j < |t.buckets| && t.buckets[j] != [] then
      (Iter(table, j, HeadOf(t.buckets[j]), HeadOf(t.buckets[j][1..])), Some(t.buckets[j][0]))
    else (Iter(table, j, None, None), None)
  }

  function Advance(d: Dict, it: Iter): (Iter, Option<Entry>)
    requires it.index >= -1
  {
    var r := Enter(d, it.table, it.index + 1);
    if r.1.None? && it.table == 0 && Rehashing(d) then Enter(d, 1, 0) else r
  }

  /** The iterator after a call, and the entry returned. */
  function Next(d: Dict, it: Iter): (Iter, Option<Entry>)
    requires it.index >= -1
  {
    if it.entry.Some? && it.nextEntry.Some? then
      var r := Rest(Current(d, it), it.nextEntry);
      if r == [] then (it, None)  // a dangling pointer; excluded below
      else (it.(entry := it.nextEntry, nextEntry := NextOf(Current(d, it), it.nextEntry.value)), Some(r[0]))
    else
      Advance(d, it)
  }

  /** The dictionary without the iterator, which counts from its first call on. */
  function Released(d: Dict, it: Iter): Dict {
    if it.index == -1 && it.table == 0 then d else d.(iterators := d.iterators - 1)
  }

  class SafeIterator {
    const d: Dictionary
    var table: nat
    var index: int
    var entry: Option<nat>
    var nextEntry: Option<nat>

    ghost function State(): Iter
      reads this
    {
      Iter(table, index, entry, nextEntry)
    }

    constructor (d: Dictionary)
      ensures this.d == d && State() == NewIter
    {
      this.d := d;
      table, index, entry, nextEntry := 0, -1, None, None;
    }

    /** The first call registers the iterator with the dictionary, which stops rehash steps. */
    method DictNext() returns (r: Option<Entry>)
      requires index >= -1 && table <= 1
      requires index == -1 ==> table == 0 && entry.None?
      requires entry.Some? && nextEntry.Some? ==> Rest(Current(d.State(), State()), nextEntry) != []
      modifies this, d`iterators
      ensures (State(), r) == Next(old(d.State()), old(State()))
      ensures d.State() == old(d.State()).(iterators := old(d.iterators) + if old(index) == -1 then 1 else 0)
    {
      ghost var d0, it0 := d.State(), State();
      if entry.Some? && nextEntry.Some? {
        var c := if table == 0 then d.ht0.buckets[index] else d.ht1.buckets[index];
        entry := nextEntry;
        var e := EntryAt(c, entry.value);
        nextEntry := NextOf(c, entry.value);
        return Some(e);
      }
      entry := None;
      if index == -1 && table == 0 { d.iterators := d.iterators + 1; }
      r := EnterFrom(index + 1);
      if r.Some? { return; }
      if d.rehashidx != -1 && table == 0 {
        table := 1;
        r := EnterFrom(0);
      }
    }

    /** dictReleaseIterator. */
    method Release()
      modifies d`iterators
      ensures d.State() == Released(old(d.State()), State())
    {
      if !(index == -1 && table == 0) {
        d.iterators := d.iterators - 1;
      }
    }

    /** The loop over empty buckets. */
    method EnterFrom(start: nat) returns (r: Option<Entry>)
      requires table <= 1 && entry.None?
      modifies this`index, this`entry, this`nextEntry
      ensures (State(), r) == Enter(d.State(), table, start)
    {
      var t := if table == 0 then d.ht0 else d.ht1;
      index := start;
      while index < |t.buckets| && t.buckets[index] == []
        invariant index >= start && FirstNonEmpty(t.buckets, index) == FirstNonEmpty(t.buckets, start)
        invariant entry.None?
        decreases |t.buckets| - index
      {
        index := index + 1;
      }
      if index >= |t.buckets| {
        nextEntry := None;
        return None;
      }
      var he := t.buckets[index][0];
      entry := Some(he.id);
      // the user may delete the entry that is returned, so its successor is saved now
      nextEntry := HeadOf(t.buckets[index][1..]);
      r := Some(he);
    }
  }

  method EntryAt(c: Chain, id: nat) returns (e: Entry)
    requires From(c, id) != []
    ensures e == From(c, id)[0]
  {
    var i := 0;
    while c[i].id != id
      invariant i < |c| && From(c[i..], id) == From(c, id)
      decreases |c| - i
    {
      assert c[i..][1..] == c[i + 1..];
      i := i + 1;
    }
    e := c[i];
    assert c[i..][0] == e;
  }

  // ------------------------------------------------------------------ what is still to be returned

  /** Distinct entries have distinct addresses. */
  ghost predicate IdsUnique(d: Dict, h: Hasher) {
    forall j, k :: Get(d, h, j).Some? && Get(d, h, k).Some? && Get(d, h, j).value.id == Get(d, h, k).value.id ==> j == k
  }

  /** Within one table: a later bucket, or the rest of the current chain. */
  ghost predicate AheadIn(t: Table, h: Hasher, index: int, rest: Chain, k: Key)
    requires Size(t) > 0
  {
    Idx(h, k, Size(t)) > index || (Idx(h, k, Size(t)) == index && ChainGet(rest, k).Some?)
  }

  /** The key's entry is still to be returned. */
  ghost predicate Ahead(d: Dict, h: Hasher, it: Iter, k: Key) {
    var rest := Rest(Current(d, it), it.nextEntry);
    if TableGet(d.t0, h, k).Some? then it.table == 0 && AheadIn(d.t0, h, it.index, rest, k)
    else TableGet(d.t1, h, k).Some? && (it.table == 0 || AheadIn(d.t1, h, it.index, rest, k))
  }

  /** The iterator is new or stands at an entry's bucket, and its saved pointer does not dangle. */
  ghost predicate IterOk(d: Dict, it: Iter) {
    && it.index >= -1 && it.table <= 1
    && (it.table == 1 ==> Rehashing(d) && it.index >= 0)
    && (it.entry.None? ==> it.nextEntry.None?)
    && (it.index == -1 ==> it.entry.None?)
    && (it.entry.Some? ==> it.index < Size(Side(d, it.table)))
    && (it.nextEntry.Some? ==> Rest(Current(d, it), it.nextEntry) != [])
  }

  lemma BucketIds(d: Dict, h: Hasher, table: nat, i: nat)
    requires Valid(d, h) && IdsUnique(d, h) && i < Size(Side(d, table))
    ensures DistinctIds(Side(d, table).buckets[i])
    ensures forall e | e in Side(d, table).buckets[i] :: Get(d, h, e.key) == Some(e)
  {
    var c := Side(d, table).buckets[i];
    forall e | e in c ensures Get(d, h, e.key) == Some(e) {
      TableGetIn(d.t0, h, e.key);
      TableGetIn(d.t1, h, e.key);
    }
    forall a, b | 0 <= a < b < |c| ensures c[a].id != c[b].id {
      assert Get(d, h, c[a].key) == Some(c[a]) && Get(d, h, c[b].key) == Some(c[b]);
    }
  }

  /** Entering a table at bucket `i` finds the first entry of the first non-empty bucket from there on. */
  lemma EnterFinds(d: Dict, h: Hasher, table: nat, i: nat)
    requires Valid(d, h) && table <= 1
    ensures var t := Side(d, table);
            var (it, r) := Enter(d, table, i);
            && it.table == table && it.index >= i && it.index >= 0
            && (forall j | i <= j < it.index && j < Size(t) :: t.buckets[j] == [])
            && (r.None? ==> it.index >= Size(t) && it.entry.None? && it.nextEntry.None?)
            && (r.Some? ==> it.index < Size(t) && t.buckets[it.index] != [] && r.value == t.buckets[it.index][0]
                            && it.entry == Some(r.value.id)
                            && Rest(Current(d, it), it.nextEntry)
                            == Rest(t.buckets[it.index], HeadOf(t.buckets[it.index][1..])))
  {
    FirstFrom(Side(d, table).buckets, i);
  }

  lemma {:induction false} FirstFrom(bs: Buckets, i: nat)
    ensures FirstNonEmpty(bs, i) >= i
    ensures forall j | i <= j < FirstNonEmpty(bs, i) && j < |bs| :: bs[j] == []
    ensures FirstNonEmpty(bs, i) < |bs| ==> bs[FirstNonEmpty(bs, i)] != []
    decreases |bs| - i
  {
    if i < |bs| && bs[i] == [] { FirstFrom(bs, i + 1); }
  }

  /** The successor pointer of a chain's head leads to its tail. */
  lemma TailOfHead(c: Chain)
    requires c != [] && DistinctIds(c)
    ensures Rest(c, HeadOf(c[1..])) == c[1..]
  {
    if |c| > 1 {
      assert From(c[1..], c[1].id) == c[1..];
    }
  }

  lemma {:induction false} TailKeys(c: Chain, k: Key)
    requires c != [] && DistinctKeys(c)
    ensures ChainGet(c[1..], k).Some? <==> ChainGet(c, k).Some? && k != c[0].key
  {
    ChainGetIn(c[1..], k);
    assert forall e | e in c[1..] :: e.key != c[0].key;
  }

  /** Membership of a key in its own bucket is its presence in the table. */
  lemma InOwnBucket(t: Table, h: Hasher, i: nat, k: Key)
    requires TableInv(t, h) && i < Size(t)
    ensures ChainGet(t.buckets[i], k).Some? ==>
      Idx(h, k, Size(t)) == i && TableGet(t, h, k) == ChainGet(t.buckets[i], k)
    ensures Idx(h, k, Size(t)) == i ==> TableGet(t, h, k) == ChainGet(t.buckets[i], k)
  {
    ChainGetIn(t.buckets[i], k);
  }

  /**
    dictNext returns an entry that was still to be returned and strikes it off; it returns NULL only
    if none is left.
   */
  lemma NextStrikesOff(d: Dict, h: Hasher, it: Iter)
    requires Valid(d, h) && IdsUnique(d, h) && IterOk(d, it) && (it.entry.Some? || it.index == -1)
    ensures var (it', r) := Next(d, it);
            && IterOk(d, it') && it'.index >= 0 && (r.Some? <==> it'.entry.Some?)
            && (r.Some? ==> Get(d, h, r.value.key) == r
                            && forall k :: Ahead(d, h, it', k) <==> Ahead(d, h, it, k) && k != r.value.key)
            && (r.Some? ==> Ahead(d, h, it, r.value.key))
            && (r.None? ==> forall k :: !Ahead(d, h, it, k) && !Ahead(d, h, it', k))
  {
    if it.entry.Some? && it.nextEntry.Some? {
      NextInChain(d, h, it);
    } else {
      assert Rest(Current(d, it), it.nextEntry) == [];
      AdvanceStrikesOff(d, h, it);
    }
  }

  lemma NextInChain(d: Dict, h: Hasher, it: Iter)
    requires Valid(d, h) && IdsUnique(d, h) && IterOk(d, it) && it.entry.Some? && it.nextEntry.Some?
    ensures var (it', r) := Next(d, it);
            && IterOk(d, it') && it'.index >= 0 && r.Some? && it'.entry.Some?
            && Get(d, h, r.value.key) == r && Ahead(d, h, it, r.value.key)
            && forall k :: Ahead(d, h, it', k) <==> Ahead(d, h, it, k) && k != r.value.key
  {
    var c := Current(d, it);
    var rest := Rest(c, it.nextEntry);
    var (it', r) := Next(d, it);
    BucketIds(d, h, it.table, it.index);
    FromIs(c, it.nextEntry.value);
    RestOfNext(c, it.nextEntry.value);
    var e := r.value;
    assert e in rest && e in c;
    assert Rest(Current(d, it'), it'.nextEntry) == rest[1..];
    InOwnBucket(Side(d, it.table), h, it.index, e.key);
    ChainGetUnique(c, e);
    ChainGetUnique(rest, e);
    forall k ensures Ahead(d, h, it', k) <==> Ahead(d, h, it, k) && k != e.key {
      TailKeys(rest, k);
    }
    if it'.nextEntry.Some? { assert |rest| >= 2; }
  }

  lemma AdvanceStrikesOff(d: Dict, h: Hasher, it: Iter)
    requires Valid(d, h) && IdsUnique(d, h) && IterOk(d, it) && Rest(Current(d, it), it.nextEntry) == []
    ensures var (it', r) := Advance(d, it);
            && IterOk(d, it') && it'.index >= 0 && (r.Some? <==> it'.entry.Some?)
            && (r.Some? ==> Get(d, h, r.value.key) == r
                            && forall k :: Ahead(d, h, it', k) <==> Ahead(d, h, it, k) && k != r.value.key)
            && (r.Some? ==> Ahead(d, h, it, r.value.key))
            && (r.None? ==> forall k :: !Ahead(d, h, it, k) && !Ahead(d, h, it', k))
  {
    hide Ahead, TableInv, TableGet, Idx, IdsUnique;
    EnterFinds(d, h, it.table, it.index + 1);
    EnterFinds(d, h, 1, 0);
    var (it', r) := Advance(d, it);
    if r.Some? {
      AdvanceFinds(d, h, it, it', r.value);
    } else {
      AdvanceEnds(d, h, it, it');
    }
  }

  /** The last bucket has been left: nothing is ahead any more. */
  lemma AdvanceEnds(d: Dict, h: Hasher, it: Iter, it': Iter)
    requires Valid(d, h) && IterOk(d, it) && Rest(Current(d, it), it.nextEntry) == []
    requires it' == Advance(d, it).0 && Advance(d, it).1.None?
    ensures IterOk(d, it') && it'.index >= 0 && it'.entry.None?
    ensures forall k :: !Ahead(d, h, it, k) && !Ahead(d, h, it', k)
  {
    hide Enter, TableGet, TableInv, Idx;
    EnterFinds(d, h, it.table, it.index + 1);
    EnterFinds(d, h, 1, 0);
    forall k ensures !Ahead(d, h, it, k) && !Ahead(d, h, it', k) {
      NotBefore(d.t0, h, it.index + 1, Size(d.t0), k);
      NotBefore(d.t1, h, it.index + 1, Size(d.t1), k);
      NotBefore(d.t1, h, 0, Size(d.t1), k);
      IdxBound(d.t0, h, k);
      IdxBound(d.t1, h, k);
    }
  }

  lemma IdxBound(t: Table, h: Hasher, k: Key)
    ensures TableGet(t, h, k).Some? ==> Size(t) > 0 && Idx(h, k, Size(t)) < Size(t)
  {
  }

  /** The head of the next non-empty bucket is the first entry ahead; its chain's tail is what stays ahead there. */
  lemma AdvanceFinds(d: Dict, h: Hasher, it: Iter, it': Iter, e: Entry)
    requires Valid(d, h) && IdsUnique(d, h) && IterOk(d, it) && Rest(Current(d, it), it.nextEntry) == []
    requires it'.table <= 1 && 0 <= it'.index < Size(Side(d, it'.table))
    requires var t := Side(d, it'.table);
             && t.buckets[it'.index] != [] && e == t.buckets[it'.index][0] && it'.entry == Some(e.id)
             && it'.nextEntry == HeadOf(t.buckets[it'.index][1..])
             && (forall j | (if it'.table == it.table then it.index + 1 else 0) <= j < it'.index :: t.buckets[j] == [])
    requires it'.table == it.table ==> it'.index > it.index
    requires it'.table != it.table ==>
               (it.table == 0 && Rehashing(d) && forall j | it.index + 1 <= j < Size(d.t0) :: d.t0.buckets[j] == [])
    ensures IterOk(d, it') && Get(d, h, e.key) == Some(e)
    ensures Ahead(d, h, it, e.key)
    ensures forall k :: Ahead(d, h, it', k) <==> Ahead(d, h, it, k) && k != e.key
  {
    var t := Side(d, it'.table);
    var c := t.buckets[it'.index];
    BucketIds(d, h, it'.table, it'.index);
    TailOfHead(c);
    assert e in c;
    ChainGetUnique(c, e);
    InOwnBucket(t, h, it'.index, e.key);
    assert TableGet(d.t0, h, e.key).None? || TableGet(d.t1, h, e.key).None?;
    hide TableInv, TableGet, Idx, IdsUnique;
    forall k ensures Ahead(d, h, it', k) <==> Ahead(d, h, it, k) && k != e.key {
      assert TableGet(d.t0, h, k).None? || TableGet(d.t1, h, k).None?;
      TailKeys(c, k);
      InOwnBucket(t, h, it'.index, k);
      NotBefore(t, h, if it'.table == it.table then it.index + 1 else 0, it'.index, k);
      NotBefore(d.t0, h, it.index + 1, Size(d.t0), k);
      IdxBound(d.t0, h, k);
      IdxBound(d.t1, h, k);
    }
  }

  /** A key of the table is not in a stretch of empty buckets. */
  lemma NotBefore(t: Table, h: Hasher, i: int, j: int, k: Key)
    ensures (forall b | i <= b < j && 0 <= b < Size(t) :: t.buckets[b] == []) && TableGet(t, h, k).Some? ==>
              Idx(h, k, Size(t)) < i || Idx(h, k, Size(t)) >= j
  {
  }

  // ------------------------------------------------------------------ operations between the calls

  /**
    What an operation does to one chain while no bucket is moved: other keys keep their entries'
    addresses, and the rest of the chain from a pointer that does not dangle keeps those keys.
   */
  ghost predicate SameRest(c: Chain, c': Chain, p: Option<nat>, k: Key) {
    && (ChainGet(Rest(c', p), k).Some? <==> ChainGet(Rest(c, p), k).Some?)
    && (Rest(c, p) != [] ==> Rest(c', p) != [])
  }

  lemma PushKeepsRest(c: Chain, e: Entry, p: Option<nat>, k: Key)
    requires p != Some(e.id)
    ensures SameRest(c, [e] + c, p, k)
  {
  }

  lemma {:induction false} RemoveKeepsRest(c: Chain, x: Key, p: Option<nat>, k: Key)
    requires DistinctKeys(c) && k != x
    requires forall e | e in c && e.key == x :: p != Some(e.id)
    ensures SameRest(c, ChainRemove(c, x), p, k)
  {
    if c != [] && p.Some? {
      assert c == [c[0]] + c[1..];
      if c[0].key != x {
        assert ChainRemove(c, x)[1..] == ChainRemove(c[1..], x);
        if c[0].id == p.value {
          ChainRemoveGet(c, x, k);
        } else {
          RemoveKeepsRest(c[1..], x, p, k);
        }
      }
    }
  }

  lemma {:induction false} SetKeepsRest(c: Chain, x: Key, v: Value, p: Option<nat>, k: Key)
    requires DistinctKeys(c)
    ensures SameRest(c, ChainSet(c, x, v), p, k)
  {
    if c != [] && p.Some? {
      if c[0].id == p.value {
        ChainSetGet(c, x, v, k);
        assert ChainSet(c, x, v)[0].id == c[0].id;
      } else if c[0].key == x {
        assert ChainSet(c, x, v)[1..] == c[1..];
      } else {
        assert ChainSet(c, x, v)[1..] == ChainSet(c[1..], x, v);
        SetKeepsRest(c[1..], x, v, p, k);
      }
    }
  }

  /** What may be called between two dictNext calls; addresses of new entries are new. */
  ghost predicate Allowed(d: Dict, h: Hasher, it: Iter, op: Op, seen: set<nat>) {
    match op
    case AddOp(e, _) => e.id !in seen
    case ReplaceOp(e, _) => e.id !in seen
    case DeleteOp(k) => Get(d, h, k).Some? ==> it.nextEntry != Some(Get(d, h, k).value.id)
    case RehashOp(_) => false
    case _ => true
  }

  /** The tables keep their sizes and every key its table; the current chain keeps what lies ahead in it. */
  ghost predicate SamePlaces(d: Dict, d': Dict, h: Hasher, it: Iter) {
    && (Size(d.t0) > 0 ==> Size(d'.t0) == Size(d.t0))
    && (Rehashing(d) ==> Rehashing(d') && Size(d'.t1) == Size(d.t1))
    && (forall k | Get(d, h, k).Some? && Get(d', h, k).Some? ::
          && Get(d', h, k).value.id == Get(d, h, k).value.id
          && (TableGet(d'.t0, h, k).Some? <==> TableGet(d.t0, h, k).Some?)
          && SameRest(Current(d, it), Current(d', it), it.nextEntry, k))
    && (Rest(Current(d, it), it.nextEntry) != [] ==> Rest(Current(d', it), it.nextEntry) != [])
  }

  lemma SamePlacesKeepAhead(d: Dict, d': Dict, h: Hasher, it: Iter, k: Key)
    requires Valid(d, h) && Valid(d', h) && IterOk(d, it) && SamePlaces(d, d', h, it)
    requires Get(d, h, k).Some? && Get(d', h, k).Some?
    ensures Ahead(d', h, it, k) <==> Ahead(d, h, it, k)
    ensures IterOk(d', it)
  {
    hide TableInv;
  }

  lemma SamePlacesTrans(d: Dict, d1: Dict, d2: Dict, h: Hasher, it: Iter)
    requires SamePlaces(d, d1, h, it) && SamePlaces(d1, d2, h, it)
    requires forall k | Get(d, h, k).Some? :: Get(d1, h, k).Some?
    ensures SamePlaces(d, d2, h, it)
  {
  }

  lemma GrowPlaces(d: Dict, h: Hasher, it: Iter, size: nat)
    requires Valid(d, h) && IterOk(d, it) && size < LONG_MAX
    ensures SamePlaces(d, Expand(d, size).0, h, it) && SamePlaces(d, d, h, it)
  {
    ExpandKeeps(d, h, size);
    NextPowerIsPow2(size);
    hide NextPower;
  }

  /** Linking a new entry at the head of its bucket. */
  lemma LinkPlaces(d: Dict, h: Hasher, it: Iter, e: Entry)
    requires Valid(d, h) && Size(d.t0) > 0 && Get(d, h, e.key).None? && it.nextEntry != Some(e.id)
    ensures SamePlaces(d, if Rehashing(d) then d.(t1 := AddTo(d.t1, h, e)) else d.(t0 := AddTo(d.t0, h, e)), h, it)
  {
    var d' := if Rehashing(d) then d.(t1 := AddTo(d.t1, h, e)) else d.(t0 := AddTo(d.t0, h, e));
    var c, c' := Current(d, it), Current(d', it);
    assert c' == c || c' == [e] + c;
    forall k ensures SameRest(c, c', it.nextEntry, k) { PushKeepsRest(c, e, it.nextEntry, k); }
    assert SameRest(c, c', it.nextEntry, e.key);
    if Rehashing(d) { AddToInv(d.t1, h, e); } else { AddToInv(d.t0, h, e); }
    hide TableInv, AddTo, Rest;
  }

  lemma AddPlaces(d: Dict, h: Hasher, it: Iter, e: Entry, canResize: bool)
    requires Valid(d, h) && d.iterators > 0 && IterOk(d, it) && 2 * DictSize(d) < LONG_MAX
    requires it.nextEntry != Some(e.id)
    ensures SamePlaces(d, Add(d, h, e, canResize).0, h, it)
  {
    ExpandIfNeededKeeps(d, h, canResize);
    var d2 := ExpandIfNeeded(d, canResize).0;
    assert SamePlaces(d, d2, h, it) by {
      GrowPlaces(d, h, it, INITIAL_SIZE);
      GrowPlaces(d, h, it, 2 * d.t0.used);
      hide SamePlaces, Expand;
    }
    hide ExpandIfNeeded, SamePlaces;
    if Get(d2, h, e.key).None? {
      LinkPlaces(d2, h, it, e);
      SamePlacesTrans(d, d2, Add(d, h, e, canResize).0, h, it);
    }
  }

  lemma DeletePlaces(d: Dict, h: Hasher, it: Iter, x: Key)
    requires Valid(d, h) && d.iterators > 0 && IterOk(d, it)
    requires Get(d, h, x).Some? ==> it.nextEntry != Some(Get(d, h, x).value.id)
    ensures SamePlaces(d, Delete(d, h, x).0, h, it)
  {
    var d' := Delete(d, h, x).0;
    DeleteKeeps(d, h, x);
    var c, c' := Current(d, it), Current(d', it);
    if c' != c {
      assert c' == ChainRemove(c, x);
      forall e | e in c && e.key == x ensures it.nextEntry != Some(e.id) {
        TableGetIn(d.t0, h, x);
        TableGetIn(d.t1, h, x);
      }
      assert DistinctKeys(c);
    }
    if TableGet(d.t0, h, x).Some? { RemoveFromInv(d.t0, h, x); }
    if TableGet(d.t1, h, x).Some? { RemoveFromInv(d.t1, h, x); }
    forall k | k != x ensures SameRest(c, c', it.nextEntry, k) {
      if c' != c { RemoveKeepsRest(c, x, it.nextEntry, k); }
    }
    if Rest(c, it.nextEntry) != [] && c' != c { RemoveKeepsHead(c, x, it.nextEntry); }
  }

  lemma {:induction false} RemoveKeepsHead(c: Chain, x: Key, p: Option<nat>)
    requires Rest(c, p) != []
    requires forall e | e in c && e.key == x :: p != Some(e.id)
    ensures Rest(ChainRemove(c, x), p) != []
  {
    assert c == [c[0]] + c[1..];
    if c[0].key != x {
      assert ChainRemove(c, x)[1..] == ChainRemove(c[1..], x);
      if c[0].id != p.value { RemoveKeepsHead(c[1..], x, p); }
    }
  }

  lemma SetPlaces(d: Dict, h: Hasher, it: Iter, x: Key, v: Value)
    requires Valid(d, h) && IterOk(d, it) && Get(d, h, x).Some?
    ensures SamePlaces(d, SetValue(d, h, x, v), h, it)
  {
    var d' := SetValue(d, h, x, v);
    SetValueKeeps(d, h, x, v);
    if TableGet(d.t0, h, x).Some? { SetInInv(d.t0, h, x, v); } else { SetInInv(d.t1, h, x, v); }
    var c, c' := Current(d, it), Current(d', it);
    assert c' == c || (c' == ChainSet(c, x, v) && DistinctKeys(c));
    forall k ensures SameRest(c, c', it.nextEntry, k) {
      if c' != c { SetKeepsRest(c, x, v, it.nextEntry, k); }
    }
    assert SameRest(c, c', it.nextEntry, x);
  }

  lemma ReplacePlaces(d: Dict, h: Hasher, it: Iter, e: Entry, canResize: bool)
    requires Valid(d, h) && d.iterators > 0 && IterOk(d, it) && 2 * DictSize(d) < LONG_MAX
    requires it.nextEntry != Some(e.id)
    ensures SamePlaces(d, Replace(d, h, e, canResize).0, h, it)
  {
    var (d1, added) := Add(d, h, e, canResize);
    AddKeeps(d, h, e, canResize);
    AddPlaces(d, h, it, e, canResize);
    if !added {
      assert IterOk(d1, it) by { hide Add, TableInv, TableGet; }
      SetPlaces(d1, h, it, e.key, e.val);
      hide Add, TableInv, TableGet, SetValue, IterOk, SamePlaces;
      SamePlacesTrans(d, d1, SetValue(d1, h, e.key, e.val), h, it);
    }
  }

  /** No operation between two calls moves an entry, or what lies ahead of the iterator. */
  lemma OpPlaces(d: Dict, h: Hasher, it: Iter, op: Op, seen: set<nat>)
    requires Valid(d, h) && d.iterators > 0 && IterOk(d, it) && Fits(d, op) && Allowed(d, h, it, op, seen)
    requires it.nextEntry.Some? ==> it.nextEntry.value in seen
    ensures SamePlaces(d, Apply(d, h, op), h, it)
  {
    match op
    case AddOp(e, canResize) => AddPlaces(d, h, it, e, canResize);
    case ReplaceOp(e, canResize) => ReplacePlaces(d, h, it, e, canResize);
    case DeleteOp(k) => DeletePlaces(d, h, it, k);
    case FindOp(k) =>
    case ExpandOp(size) => GrowPlaces(d, h, it, size);
    case ResizeOp(canResize) => GrowPlaces(d, h, it, if d.t0.used < INITIAL_SIZE then INITIAL_SIZE else d.t0.used);
  }

  /** Which entries are there after an operation: old ones under their old addresses, or the new one. */
  lemma OpEntries(d: Dict, h: Hasher, op: Op, k: Key)
    requires Valid(d, h) && Fits(d, op) && Get(Apply(d, h, op), h, k).Some?
    ensures (Get(d, h, k).Some? && Get(Apply(d, h, op), h, k).value.id == Get(d, h, k).value.id)
            || ((op.AddOp? || op.ReplaceOp?) && k == op.e.key && Get(Apply(d, h, op), h, k).value.id == op.e.id
                && Get(d, h, k).None?)
  {
    hide Valid, Get;
    match op
    case AddOp(e, canResize) => AddKeeps(d, h, e, canResize);
    case ReplaceOp(e, canResize) => ReplaceKeeps(d, h, e, canResize);
    case DeleteOp(x) => DeleteKeeps(d, h, x);
    case FindOp(x) => StepKeeps(d, h);
    case ExpandOp(size) => ExpandKeeps(d, h, size);
    case ResizeOp(canResize) => ExpandKeeps(d, h, if d.t0.used < INITIAL_SIZE then INITIAL_SIZE else d.t0.used);
    case RehashOp(n) => RehashKeeps(d, h, n);
  }

  // ------------------------------------------------------------------ whole iterations

  /** `returned` lists the addresses returned so far; `seen` those ever used. */
  datatype Session = Session(d: Dict, it: Iter, returned: seq<nat>, seen: set<nat>)

  datatype Event = NextEvent | OpEvent(op: Op)

  ghost predicate NoDuplicates(s: seq<nat>) {
    forall i, j | 0 <= i < j < |s| :: s[i] != s[j]
  }

  ghost predicate SessionInv(s: Session, h: Hasher) {
    && Valid(s.d, h) && IdsUnique(s.d, h) && IterOk(s.d, s.it)
    && (s.it.index >= 0 ==> s.d.iterators > 0) && s.d.iterators >= 0
    && (forall k | Get(s.d, h, k).Some? :: Get(s.d, h, k).value.id in s.seen)
    && (forall x | x in s.returned :: x in s.seen)
    && (s.it.nextEntry.Some? ==> s.it.nextEntry.value in s.seen)
    && NoDuplicates(s.returned)
    && (forall k | Ahead(s.d, h, s.it, k) :: Get(s.d, h, k).Some? && Get(s.d, h, k).value.id !in s.returned)
  }

  /** The iteration is over when dictNext has returned NULL. */
  predicate Finished(s: Session) {
    s.it.index >= 0 && s.it.entry.None?
  }

  /** The first event is a call of dictNext, and none follows the one that returns NULL. */
  ghost predicate CanDo(s: Session, h: Hasher, ev: Event) {
    match ev
    case NextEvent => !Finished(s)
    case OpEvent(op) => s.it.entry.Some? && Fits(s.d, op) && Allowed(s.d, h, s.it, op, s.seen)
  }

  ghost function Do(s: Session, h: Hasher, ev: Event): Session
    requires SessionInv(s, h) && CanDo(s, h, ev)
  {
    match ev
    case NextEvent =>
      var (it', r) := Next(s.d, s.it);
      Session(s.d.(iterators := s.d.iterators + if s.it.index == -1 then 1 else 0), it',
              if r.Some? then s.returned + [r.value.id] else s.returned, s.seen)
    case OpEvent(op) =>
      s.(d := Apply(s.d, h, op), seen := if op.AddOp? || op.ReplaceOp? then s.seen + {op.e.id} else s.seen)
  }

  /** `iterators` has no part in what lies ahead. */
  lemma CountIsIrrelevant(d: Dict, h: Hasher, it: Iter, n: int)
    ensures var d' := d.(iterators := n);
            && (Valid(d, h) ==> Valid(d', h)) && (IterOk(d, it) ==> IterOk(d', it))
            && (IdsUnique(d, h) ==> IdsUnique(d', h))
            && (forall k :: Get(d', h, k) == Get(d, h, k))
            && (forall k :: Ahead(d', h, it, k) <==> Ahead(d, h, it, k))
  {
    hide TableInv, TableGet, Rest;
    var d' := d.(iterators := n);
    assert Current(d', it) == Current(d, it);
    forall k ensures Get(d', h, k) == Get(d, h, k) {}
  }

  lemma NextKeeps(s: Session, h: Hasher)
    requires SessionInv(s, h) && CanDo(s, h, NextEvent)
    ensures SessionInv(Do(s, h, NextEvent), h)
    ensures forall k | Get(s.d, h, k).Some? && !Ahead(Do(s, h, NextEvent).d, h, Do(s, h, NextEvent).it, k) ::
              !Ahead(s.d, h, s.it, k) || Get(s.d, h, k).value.id in Do(s, h, NextEvent).returned
    ensures forall k :: Get(Do(s, h, NextEvent).d, h, k) == Get(s.d, h, k)
  {
    var s' := Do(s, h, NextEvent);
    NextStrikesOff(s.d, h, s.it);
    NextSaved(s.d, h, s.it);
    CountIsIrrelevant(s.d, h, s'.it, s'.d.iterators);
    hide Next, Valid, IdsUnique, Get, Ahead;
    forall k | Ahead(s.d, h, s'.it, k) ensures Get(s.d, h, k).Some? && Get(s.d, h, k).value.id !in s'.returned {
      SameIdSameKey(s.d, h, k, Next(s.d, s.it).1);
    }
  }

  lemma SameIdSameKey(d: Dict, h: Hasher, k: Key, r: Option<Entry>)
    requires IdsUnique(d, h) && (r.Some? ==> Get(d, h, r.value.key) == r)
    ensures r.Some? && Get(d, h, k).Some? && Get(d, h, k).value.id == r.value.id ==> k == r.value.key
  {
  }

  /** The pointer saved for the next call is an entry of the dictionary. */
  lemma NextSaved(d: Dict, h: Hasher, it: Iter)
    requires Valid(d, h) && IdsUnique(d, h) && IterOk(d, it) && (it.entry.Some? || it.index == -1)
    ensures var p := Next(d, it).0.nextEntry;
            p.Some? ==> exists k :: Get(d, h, k).Some? && Get(d, h, k).value.id == p.value
  {
    NextStrikesOff(d, h, it);
    var it' := Next(d, it).0;
    hide Next;
    if it'.nextEntry.Some? {
      var c := Current(d, it');
      FromIs(c, it'.nextEntry.value);
      var e :| e in c && e.id == it'.nextEntry.value;
      BucketIds(d, h, it'.table, it'.index);
      assert Get(d, h, e.key) == Some(e);
    }
  }

  /** An entry after an operation is one of before, or the new one. */
  lemma OpEntry(s: Session, h: Hasher, op: Op, k: Key)
    requires SessionInv(s, h) && CanDo(s, h, OpEvent(op)) && Valid(Apply(s.d, h, op), h)
    requires SamePlaces(s.d, Apply(s.d, h, op), h, s.it)
    requires Get(Apply(s.d, h, op), h, k).Some?
    ensures var d' := Apply(s.d, h, op);
            if Get(s.d, h, k).Some? then
              Get(d', h, k).value.id == Get(s.d, h, k).value.id && (Ahead(d', h, s.it, k) <==> Ahead(s.d, h, s.it, k))
            else
              (op.AddOp? || op.ReplaceOp?) && k == op.e.key && Get(d', h, k).value.id == op.e.id && op.e.id !in s.seen
  {
    OpEntries(s.d, h, op, k);
    NewId(s, h, op);
    hide Apply, TableInv, Allowed, SamePlaces, TableGet;
    if Get(s.d, h, k).Some? { SamePlacesKeepAhead(s.d, Apply(s.d, h, op), h, s.it, k); }
  }

  lemma OpKeepsIds(s: Session, h: Hasher, op: Op)
    requires SessionInv(s, h) && CanDo(s, h, OpEvent(op)) && Valid(Apply(s.d, h, op), h)
    requires SamePlaces(s.d, Apply(s.d, h, op), h, s.it)
    ensures IdsUnique(Apply(s.d, h, op), h)
  {
    var d' := Apply(s.d, h, op);
    hide Apply, TableInv, Allowed, SamePlaces, TableGet, Valid, Ahead;
    forall j, k | Get(d', h, j).Some? && Get(d', h, k).Some? && Get(d', h, j).value.id == Get(d', h, k).value.id
      ensures j == k
    {
      OpEntry(s, h, op, j);
      OpEntry(s, h, op, k);
    }
  }

  lemma OpKeeps(s: Session, h: Hasher, op: Op)
    requires SessionInv(s, h) && CanDo(s, h, OpEvent(op))
    ensures SessionInv(Do(s, h, OpEvent(op)), h)
    ensures forall k | Get(s.d, h, k).Some? && Get(Do(s, h, OpEvent(op)).d, h, k).Some? ::
              Ahead(Do(s, h, OpEvent(op)).d, h, s.it, k) <==> Ahead(s.d, h, s.it, k)
  {
    hide Apply, TableInv, Allowed, SamePlaces, TableGet, Valid, IdsUnique, NoDuplicates;
    var s' := Do(s, h, OpEvent(op));
    ApplyKeeps(s.d, h, op);
    OpPlaces(s.d, h, s.it, op, s.seen);
    OpKeepsIter(s, h, op);
    OpKeepsIds(s, h, op);
    forall k | Get(s'.d, h, k).Some?
      ensures Get(s'.d, h, k).value.id in s'.seen
      ensures Get(s.d, h, k).Some? ==> (Ahead(s'.d, h, s.it, k) <==> Ahead(s.d, h, s.it, k))
      ensures Get(s.d, h, k).Some? ==> Get(s'.d, h, k).value.id == Get(s.d, h, k).value.id
      ensures Get(s.d, h, k).None? ==> Get(s'.d, h, k).value.id !in s.seen
    {
      OpEntry(s, h, op, k);
    }
    assert forall k | Ahead(s'.d, h, s'.it, k) :: Get(s'.d, h, k).Some?;
  }

  lemma NewId(s: Session, h: Hasher, op: Op)
    requires Allowed(s.d, h, s.it, op, s.seen)
    ensures op.AddOp? || op.ReplaceOp? ==> op.e.id !in s.seen
  {
  }

  lemma OpKeepsIter(s: Session, h: Hasher, op: Op)
    requires SessionInv(s, h) && CanDo(s, h, OpEvent(op))
    ensures IterOk(Do(s, h, OpEvent(op)).d, s.it)
  {
    OpPlaces(s.d, h, s.it, op, s.seen);
    hide Apply, TableInv, Allowed, TableGet;
  }

  lemma EventKeeps(s: Session, h: Hasher, ev: Event)
    requires SessionInv(s, h) && CanDo(s, h, ev)
    ensures SessionInv(Do(s, h, ev), h)
  {
    match ev
    case NextEvent => NextKeeps(s, h);
    case OpEvent(op) => OpKeeps(s, h, op);
  }

  /** The session after the events, if each may happen in its turn. */
  ghost function Exec(s: Session, h: Hasher, es: seq<Event>): (r: Option<Session>)
    requires SessionInv(s, h)
    ensures r.Some? ==> SessionInv(r.value, h)
    decreases |es|
  {
    if es == [] then Some(s)
    else if CanDo(s, h, es[0]) then (EventKeeps(s, h, es[0]); Exec(Do(s, h, es[0]), h, es[1..]))
    else None
  }

  ghost predicate Holds(d: Dict, h: Hasher, k: Key, id: nat) {
    Get(d, h, k).Some? && Get(d, h, k).value.id == id
  }

  /** The entry at `id` is in the dictionary after every prefix of the events. */
  ghost predicate HeldThroughout(s: Session, h: Hasher, es: seq<Event>, k: Key, id: nat)
    requires SessionInv(s, h)
    decreases |es|
  {
    Holds(s.d, h, k, id) &&
    (es != [] && CanDo(s, h, es[0]) ==> (EventKeeps(s, h, es[0]); HeldThroughout(Do(s, h, es[0]), h, es[1..], k, id)))
  }

  lemma {:induction false} HeldIsReturned(s: Session, h: Hasher, es: seq<Event>, k: Key, id: nat)
    requires SessionInv(s, h) && Exec(s, h, es).Some? && HeldThroughout(s, h, es, k, id)
    requires Ahead(s.d, h, s.it, k) || id in s.returned
    ensures var s' := Exec(s, h, es).value;
            Ahead(s'.d, h, s'.it, k) || id in s'.returned
    decreases |es|
  {
    if es != [] {
      var s1 := Do(s, h, es[0]);
      EventKeeps(s, h, es[0]);
      assert Holds(s1.d, h, k, id);
      match es[0] {
        case NextEvent => NextKeeps(s, h);
        case OpEvent(op) => OpKeeps(s, h, op);
      }
      HeldIsReturned(s1, h, es[1..], k, id);
    }
  }

  /** A session at its start, over a sound dictionary. */
  ghost predicate StartOf(s: Session, h: Hasher) {
    && Valid(s.d, h) && IdsUnique(s.d, h) && s.d.iterators >= 0
    && s.it == NewIter && s.returned == []
    && forall k | Get(s.d, h, k).Some? :: Get(s.d, h, k).value.id in s.seen
  }

  lemma StartInv(s: Session, h: Hasher)
    requires StartOf(s, h)
    ensures SessionInv(s, h)
    ensures forall k | Get(s.d, h, k).Some? :: Ahead(s.d, h, s.it, k)
  {
  }

  /**
    A whole iteration returns no entry twice, and every entry that is in the dictionary from the first
    call to the last exactly once.
   */
  lemma IterationIsExact(s: Session, h: Hasher, es: seq<Event>)
    requires StartOf(s, h)
    ensures SessionInv(s, h)
    ensures Exec(s, h, es).Some? ==> NoDuplicates(Exec(s, h, es).value.returned)
    ensures Exec(s, h, es).Some? && Finished(Exec(s, h, es).value) ==>
              forall k, id | HeldThroughout(s, h, es, k, id) :: id in Exec(s, h, es).value.returned
  {
    StartInv(s, h);
    if Exec(s, h, es).Some? && Finished(Exec(s, h, es).value) {
      var s' := Exec(s, h, es).value;
      forall k, id | HeldThroughout(s, h, es, k, id) ensures id in s'.returned {
        assert Holds(s.d, h, k, id);
        HeldIsReturned(s, h, es, k, id);
        LastCall(s, h, es, k);
      }
    }
  }

  /** An iterator is counted once, whatever is called meanwhile: its release leaves the count as it was. */
  lemma {:induction false} ReleaseRestores(s: Session, h: Hasher, es: seq<Event>)
    requires SessionInv(s, h) && Exec(s, h, es).Some?
    ensures var s' := Exec(s, h, es).value; Released(s'.d, s'.it).iterators == Released(s.d, s.it).iterators
    decreases |es|
  {
    hide SessionInv, CanDo, Next, Apply;
    if es != [] {
      CountsOnce(s, h, es[0]);
      EventKeeps(s, h, es[0]);
      ReleaseRestores(Do(s, h, es[0]), h, es[1..]);
    }
  }

  lemma CountsOnce(s: Session, h: Hasher, ev: Event)
    requires SessionInv(s, h) && CanDo(s, h, ev)
    ensures var s' := Do(s, h, ev); Released(s'.d, s'.it).iterators == Released(s.d, s.it).iterators
  {
    hide Valid, IdsUnique, Apply, Ahead, Rest;
    match ev
    case NextEvent => NextStarts(s.d, s.it);
    case OpEvent(op) => ApplyKeeps(s.d, h, op);
  }

  lemma NextStarts(d: Dict, it: Iter)
    requires it.index >= -1 && (it.index == -1 ==> it.entry.None?)
    ensures Next(d, it).0.index >= 0
  {
  }

  /** Once dictNext has returned NULL nothing is ahead. */
  lemma {:induction false} LastCall(s: Session, h: Hasher, es: seq<Event>, k: Key)
    requires SessionInv(s, h) && !Finished(s) && Exec(s, h, es).Some? && Finished(Exec(s, h, es).value)
    ensures var s' := Exec(s, h, es).value; !Ahead(s'.d, h, s'.it, k)
    decreases |es|
  {
    var s1 := Do(s, h, es[0]);
    EventKeeps(s, h, es[0]);
    if Finished(s1) {
      assert es[0].NextEvent?;
      NextStrikesOff(s.d, h, s.it);
      NothingFollows(s1, h, es[1..]);
      var it' := Next(s.d, s.it).0;
      assert !Ahead(s.d, h, s.it, k);
      EndIsEnd(s, h, k);
    } else {
      LastCall(s1, h, es[1..], k);
    }
  }

  lemma NothingFollows(s: Session, h: Hasher, es: seq<Event>)
    requires SessionInv(s, h) && Finished(s) && Exec(s, h, es).Some?
    ensures es == []
  {
  }

  lemma EndIsEnd(s: Session, h: Hasher, k: Key)
    requires SessionInv(s, h) && !Finished(s) && Finished(Do(s, h, NextEvent))
    ensures !Ahead(Do(s, h, NextEvent).d, h, Do(s, h, NextEvent).it, k)
  {
    NextStrikesOff(s.d, h, s.it);
    hide Next, TableInv;
    var s' := Do(s, h, NextEvent);
    assert Current(s'.d, s'.it) == Current(s.d, s'.it);
    assert Ahead(s'.d, h, s'.it, k) <==> Ahead(s.d, h, s'.it, k);
  }
}
