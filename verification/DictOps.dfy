/**
  The operations of redisdict.c as functions on the two tables, with incremental rehashing inside
  them, and the finite map they implement: whatever the state of the rehash, a step of it leaves the
  map alone, and add, replace, find and delete are those of a plain map.
 */
module DictOps {
  import opened Basics
  import opened DictTable

  const INITIAL_SIZE := 4
  const FORCE_RESIZE_RATIO := 5
  const LONG_MAX := 0x7FFF_FFFF_FFFF_FFFF

  // ------------------------------------------------------------------ sizes

  function NextPowerFrom(i: nat, size: nat): nat
    requires i > 0
    decreases if i < size then size - i else 0
  {
    if i >= size then i else NextPowerFrom(2 * i, size)
  }

  function NextPower(size: nat): nat {
    if size >= LONG_MAX then LONG_MAX else NextPowerFrom(INITIAL_SIZE, size)
  }

  lemma {:induction false} NextPowerFromLeast(i: nat, size: nat)
    requires i > 0 && IsPow2(i)
    ensures IsPow2(NextPowerFrom(i, size)) && NextPowerFrom(i, size) >= size
    ensures NextPowerFrom(i, size) == i || NextPowerFrom(i, size) < 2 * size
    ensures NextPowerFrom(i, size) >= i
    decreases if i < size then size - i else 0
  {
    if i < size { NextPowerFromLeast(2 * i, size); }
  }

  /** The capability is a power of two exactly below the guard; then it is the least one that fits. */
  lemma NextPowerIsPow2(size: nat)
    ensures IsPow2(NextPower(size)) <==> size < LONG_MAX
    ensures size < LONG_MAX ==> NextPower(size) >= size && NextPower(size) >= INITIAL_SIZE
    ensures size < LONG_MAX ==> NextPower(size) == INITIAL_SIZE || NextPower(size) < 2 * size
  {
    assert IsPow2(2) && IsPow2(4);
    NextPowerFromLeast(INITIAL_SIZE, size);
    assert LONG_MAX % 2 == 1;
  }

  // ------------------------------------------------------------------ rehashing

  function AddTo(t: Table, h: Hasher, e: Entry): Table
    requires Size(t) > 0
  {
    var i := Idx(h, e.key, Size(t));
    Table(t.buckets[i := [e] + t.buckets[i]], t.used + 1)
  }

  function MoveChain(t: Table, h: Hasher, c: Chain): (r: Table)
    requires Size(t) > 0
    ensures Size(r) == Size(t)
    decreases |c|
  {
    if c == [] then t else MoveChain(AddTo(t, h, c[0]), h, c[1..])
  }

  function FirstNonEmpty(bs: Buckets, i: nat): nat
    decreases |bs| - i
  {
    if i >= |bs| || bs[i] != [] then i else FirstNonEmpty(bs, i + 1)
  }

  /** Move the next non-empty bucket, or drop the first table if nothing is left in it. */
  ghost function RehashOnce(d: Dict, h: Hasher): Dict
    requires Valid(d, h) && Rehashing(d)
  {
    if d.t0.used == 0 then
      Dict(d.t1, EmptyTable, -1, d.iterators)
    else
      var j := FirstNonEmpty(d.t0.buckets, d.rehashidx);
      NextBucket(d, h);
      Dict(Table(d.t0.buckets[j := []], d.t0.used - |d.t0.buckets[j]|),
           MoveChain(d.t1, h, d.t0.buckets[j]), j + 1, d.iterators)
  }

  /** `n` steps of dictRehash; it returns 1 while keys are left to move. */
  ghost function Rehash(d: Dict, h: Hasher, n: nat): Dict
    requires Valid(d, h)
    decreases n
  {
    if n == 0 || !Rehashing(d) then d
    else
      RehashOnceKeeps(d, h);
      Rehash(RehashOnce(d, h), h, n - 1)
  }

  /** The step of rehashing that lookups and updates perform unless a safe iterator is running. */
  ghost function Step(d: Dict, h: Hasher): Dict
    requires Valid(d, h)
  {
    if Rehashing(d) && d.iterators == 0 then RehashOnce(d, h) else d
  }

  lemma AddToInv(t: Table, h: Hasher, e: Entry)
    requires TableInv(t, h) && Size(t) > 0 && TableGet(t, h, e.key).None?
    ensures TableInv(AddTo(t, h, e), h) && Size(AddTo(t, h, e)) == Size(t)
    ensures forall k :: TableGet(AddTo(t, h, e), h, k) == if k == e.key then Some(e) else TableGet(t, h, k)
  {
    var i := Idx(h, e.key, Size(t));
    var c := [e] + t.buckets[i];
    TableGetIn(t, h, e.key);
    assert c[1..] == t.buckets[i];
    assert forall x | x in t.buckets[i] :: x.key != e.key;
    BucketUpdate(t, h, i, c, t.used + 1);
  }

  lemma {:induction false} MoveChainInv(t: Table, h: Hasher, c: Chain)
    requires TableInv(t, h) && Size(t) > 0 && DistinctKeys(c)
    requires forall e | e in c :: TableGet(t, h, e.key).None?
    ensures TableInv(MoveChain(t, h, c), h) && MoveChain(t, h, c).used == t.used + |c|
    ensures forall k :: TableGet(MoveChain(t, h, c), h, k)
                     == if ChainGet(c, k).Some? then ChainGet(c, k) else TableGet(t, h, k)
    decreases |c|
  {
    if c != [] {
      assert c == [c[0]] + c[1..];
      AddToInv(t, h, c[0]);
      MoveChainInv(AddTo(t, h, c[0]), h, c[1..]);
      ChainGetIn(c[1..], c[0].key);
    }
  }

  lemma {:induction false} FirstNonEmptyIs(bs: Buckets, i: nat)
    requires i <= |bs| && forall j | 0 <= j < i :: bs[j] == []
    ensures i <= FirstNonEmpty(bs, i) <= |bs|
    ensures forall j | 0 <= j < FirstNonEmpty(bs, i) :: bs[j] == []
    ensures FirstNonEmpty(bs, i) < |bs| ==> bs[FirstNonEmpty(bs, i)] != []
    decreases |bs| - i
  {
    if i < |bs| && bs[i] == [] { FirstNonEmptyIs(bs, i + 1); }
  }

  /** As long as `used` is not zero there is a bucket to move. */
  lemma NextBucket(d: Dict, h: Hasher)
    requires Valid(d, h) && Rehashing(d) && d.t0.used != 0
    ensures var j := FirstNonEmpty(d.t0.buckets, d.rehashidx);
            && d.rehashidx <= j < Size(d.t0)
            && d.t0.buckets[j] != [] && (forall i | 0 <= i < j :: d.t0.buckets[i] == [])
            && |d.t0.buckets[j]| <= d.t0.used
  {
    var j := FirstNonEmpty(d.t0.buckets, d.rehashidx);
    FirstNonEmptyIs(d.t0.buckets, d.rehashidx);
    TotalLenZero(d.t0.buckets);
    TotalLenUpdate(d.t0.buckets, j, []);
  }

  /** A step of rehashing keeps both tables sound and every lookup, down to the entry's address. */
  lemma RehashOnceKeeps(d: Dict, h: Hasher)
    requires Valid(d, h) && Rehashing(d)
    ensures Valid(RehashOnce(d, h), h) && DictSize(RehashOnce(d, h)) == DictSize(d)
    ensures forall k :: Get(RehashOnce(d, h), h, k) == Get(d, h, k)
    ensures Rehashing(RehashOnce(d, h)) ==> RehashOnce(d, h).rehashidx > d.rehashidx
                                            && Size(RehashOnce(d, h).t0) == Size(d.t0)
  {
    var d' := RehashOnce(d, h);
    if d.t0.used == 0 {
      TotalLenZero(d.t0.buckets);
      forall k ensures Get(d', h, k) == Get(d, h, k) { TableGetIn(d.t0, h, k); }
    } else {
      var j := FirstNonEmpty(d.t0.buckets, d.rehashidx);
      NextBucket(d, h);
      var c := d.t0.buckets[j];
      BucketUpdate(d.t0, h, j, [], d.t0.used - |c|);
      forall e | e in c ensures TableGet(d.t1, h, e.key).None? { TableGetIn(d.t0, h, e.key); }
      MoveChainInv(d.t1, h, c);
      forall k
        ensures TableGet(d'.t0, h, k).None? || TableGet(d'.t1, h, k).None?
        ensures Get(d', h, k) == Get(d, h, k)
      {
        ChainGetIn(c, k);
        if Idx(h, k, Size(d.t0)) == j {
          assert TableGet(d.t0, h, k) == ChainGet(c, k);
          assert TableGet(d'.t0, h, k) == None;
        } else {
          assert ChainGet(c, k).None?;
        }
      }
    }
  }

  lemma {:induction false} RehashKeeps(d: Dict, h: Hasher, n: nat)
    requires Valid(d, h)
    ensures Valid(Rehash(d, h, n), h) && DictSize(Rehash(d, h, n)) == DictSize(d)
    ensures forall k :: Get(Rehash(d, h, n), h, k) == Get(d, h, k)
    ensures Rehash(d, h, n).iterators == d.iterators
    decreases n
  {
    if n > 0 && Rehashing(d) {
      RehashOnceKeeps(d, h);
      RehashKeeps(RehashOnce(d, h), h, n - 1);
    }
  }

  /** A rehash ends: that many steps, at most one per bucket and one to drop the table, finish it. */
  lemma {:induction false} RehashFinishes(d: Dict, h: Hasher, n: nat)
    requires Valid(d, h) && (Rehashing(d) ==> n > Size(d.t0) - d.rehashidx)
    ensures !Rehashing(Rehash(d, h, n))
    decreases n
  {
    if Rehashing(d) {
      RehashOnceKeeps(d, h);
      RehashFinishes(RehashOnce(d, h), h, n - 1);
    }
  }

  lemma StepKeeps(d: Dict, h: Hasher)
    requires Valid(d, h)
    ensures Valid(Step(d, h), h) && DictSize(Step(d, h)) == DictSize(d)
    ensures forall k :: Get(Step(d, h), h, k) == Get(d, h, k)
    ensures Step(d, h).iterators == d.iterators
    ensures Size(d.t0) > 0 ==> Size(Step(d, h).t0) > 0
  {
    if Rehashing(d) && d.iterators == 0 { RehashOnceKeeps(d, h); }
  }

  lemma SameGetsSameMap(d: Dict, d': Dict, h: Hasher, m: map<Key, Value>)
    requires Abs(d, h, m) && DictSize(d') == DictSize(d)
    requires forall k :: Get(d', h, k) == Get(d, h, k)
    ensures Abs(d', h, m)
  {
  }

  /** The map after one key's entry was added, replaced or removed. */
  lemma AbsUpdate(d: Dict, d': Dict, h: Hasher, m: map<Key, Value>, k: Key, r: Option<Entry>)
    requires Abs(d, h, m)
    requires forall x :: Get(d', h, x) == if x == k then r else Get(d, h, x)
    requires DictSize(d') + (if k in m then 1 else 0) == DictSize(d) + (if r.Some? then 1 else 0)
    ensures Abs(d', h, if r.Some? then m[k := r.value.val] else m - {k})
  {
    hide Get, DictSize, Abs;
    AbsFacts(d, h, m);
    var m' := if r.Some? then m[k := r.value.val] else m - {k};
    UpdateSize(m, k, r);
    forall x ensures (x in m' <==> Get(d', h, x).Some?) && (x in m' ==> Get(d', h, x).value.val == m'[x]) {
      assert x != k ==> Get(d', h, x) == Get(d, h, x);
    }
    AbsIs(d', h, m');
  }

  lemma AbsFacts(d: Dict, h: Hasher, m: map<Key, Value>)
    requires Abs(d, h, m)
    ensures forall k :: (k in m <==> Get(d, h, k).Some?) && (k in m ==> Get(d, h, k).value.val == m[k])
    ensures |m| == DictSize(d)
  {
    hide Get, DictSize;
  }

  lemma AbsIs(d: Dict, h: Hasher, m: map<Key, Value>)
    requires forall k :: (k in m <==> Get(d, h, k).Some?) && (k in m ==> Get(d, h, k).value.val == m[k])
    requires |m| == DictSize(d)
    ensures Abs(d, h, m)
  {
    hide Get, DictSize;
  }

  lemma UpdateSize(m: map<Key, Value>, k: Key, r: Option<Entry>)
    ensures var m' := if r.Some? then m[k := r.value.val] else m - {k};
            |m'| + (if k in m then 1 else 0) == |m| + (if r.Some? then 1 else 0)
  {
  }

  // ------------------------------------------------------------------ expansion

  function NewTable(size: nat): Table {
    Table(seq(size, i => []), 0)
  }

  lemma {:induction false} EmptyBuckets(n: nat)
    ensures TotalLen(seq<Chain>(n, i => [])) == 0
  {
    TotalLenZero(seq<Chain>(n, i => []));
  }

  lemma NewTableInv(size: nat, h: Hasher)
    requires IsPow2(size)
    ensures TableInv(NewTable(size), h) && Size(NewTable(size)) == size
    ensures forall k :: TableGet(NewTable(size), h, k).None?
  {
    EmptyBuckets(size);
  }

  /** The second component is false for DICT_ERR. */
  function Expand(d: Dict, size: nat): (Dict, bool) {
    if Rehashing(d) || d.t0.used > size then (d, false)
    else if Size(d.t0) == 0 then (d.(t0 := NewTable(NextPower(size))), true)
    else (d.(t1 := NewTable(NextPower(size)), rehashidx := 0), true)
  }

  function ExpandIfNeeded(d: Dict, canResize: bool): (Dict, bool) {
    if Rehashing(d) then (d, true)
    else if Size(d.t0) == 0 then Expand(d, INITIAL_SIZE)
    else if d.t0.used >= Size(d.t0) && (canResize || d.t0.used / Size(d.t0) > FORCE_RESIZE_RATIO) then
      Expand(d, 2 * d.t0.used)
    else (d, true)
  }

  function Resize(d: Dict, canResize: bool): (Dict, bool) {
    if !canResize || Rehashing(d) then (d, false)
    else Expand(d, if d.t0.used < INITIAL_SIZE then INITIAL_SIZE else d.t0.used)
  }

  lemma ExpandKeeps(d: Dict, h: Hasher, size: nat)
    requires Valid(d, h) && size < LONG_MAX
    ensures Valid(Expand(d, size).0, h) && DictSize(Expand(d, size).0) == DictSize(d)
    ensures forall k :: Get(Expand(d, size).0, h, k) == Get(d, h, k)
    ensures Expand(d, size).0.iterators == d.iterators
  {
    NextPowerIsPow2(size);
    NewTableInv(NextPower(size), h);
    TotalLenZero(d.t0.buckets);
  }

  /** Never DICT_ERR: the doubled count always suffices. */
  lemma ExpandIfNeededKeeps(d: Dict, h: Hasher, canResize: bool)
    requires Valid(d, h) && 2 * d.t0.used < LONG_MAX
    ensures var (d', ok) := ExpandIfNeeded(d, canResize);
            && ok && Valid(d', h) && DictSize(d') == DictSize(d) && d'.iterators == d.iterators
            && Size(d'.t0) > 0
            && (forall k :: Get(d', h, k) == Get(d, h, k))
  {
    TotalLenZero(d.t0.buckets);
    NextPowerIsPow2(INITIAL_SIZE);
    NextPowerIsPow2(2 * d.t0.used);
    if !Rehashing(d) {
      if Size(d.t0) == 0 {
        ExpandKeeps(d, h, INITIAL_SIZE);
      } else {
        ExpandKeeps(d, h, 2 * d.t0.used);
      }
    }
  }

  // ------------------------------------------------------------------ map operations

  /** dictAdd: rehash a step, grow if needed, then link the entry unless the key is there. */
  ghost function Add(d: Dict, h: Hasher, e: Entry, canResize: bool): (Dict, bool)
    requires Valid(d, h) && 2 * DictSize(d) < LONG_MAX
  {
    StepKeeps(d, h);
    var d1 := Step(d, h);
    ExpandIfNeededKeeps(d1, h, canResize);
    var (d2, ok) := ExpandIfNeeded(d1, canResize);
    if !ok || Get(d2, h, e.key).Some? then (d2, false)
    else if Rehashing(d2) then (d2.(t1 := AddTo(d2.t1, h, e)), true)
    else (d2.(t0 := AddTo(d2.t0, h, e)), true)
  }

  ghost function Find(d: Dict, h: Hasher, k: Key): (Dict, Option<Entry>)
    requires Valid(d, h)
  {
    if Size(d.t0) == 0 then (d, None) else (Step(d, h), Get(Step(d, h), h, k))
  }

  function RemoveFrom(t: Table, h: Hasher, k: Key): Table
    requires TableGet(t, h, k).Some?
  {
    var i := Idx(h, k, Size(t));
    Table(t.buckets[i := ChainRemove(t.buckets[i], k)], if t.used == 0 then 0 else t.used - 1)
  }

  function SetIn(t: Table, h: Hasher, k: Key, v: Value): Table
    requires TableGet(t, h, k).Some?
  {
    var i := Idx(h, k, Size(t));
    Table(t.buckets[i := ChainSet(t.buckets[i], k, v)], t.used)
  }

  ghost function Delete(d: Dict, h: Hasher, k: Key): (Dict, bool)
    requires Valid(d, h)
  {
    if Size(d.t0) == 0 then (d, false)
    else
      var d1 := Step(d, h);
      if TableGet(d1.t0, h, k).Some? then (d1.(t0 := RemoveFrom(d1.t0, h, k)), true)
      else if TableGet(d1.t1, h, k).Some? then (d1.(t1 := RemoveFrom(d1.t1, h, k)), true)
      else (d1, false)
  }

  function SetValue(d: Dict, h: Hasher, k: Key, v: Value): Dict {
    if TableGet(d.t0, h, k).Some? then d.(t0 := SetIn(d.t0, h, k, v))
    else if TableGet(d.t1, h, k).Some? then d.(t1 := SetIn(d.t1, h, k, v))
    else d
  }

  /** dictReplace: 1 if the key was added, 0 if its value was overwritten. */
  ghost function Replace(d: Dict, h: Hasher, e: Entry, canResize: bool): (Dict, bool)
    requires Valid(d, h) && 2 * DictSize(d) < LONG_MAX
  {
    var (d1, added) := Add(d, h, e, canResize);
    if added then (d1, true)
    else
      AddKeeps(d, h, e, canResize);
      (SetValue(Find(d1, h, e.key).0, h, e.key, e.val), false)
  }

  /** Adding keeps the tables sound and touches no other key; it is refused exactly for a present key. */
  lemma AddKeeps(d: Dict, h: Hasher, e: Entry, canResize: bool)
    requires Valid(d, h) && 2 * DictSize(d) < LONG_MAX
    ensures var (d', added) := Add(d, h, e, canResize);
            && Valid(d', h) && d'.iterators == d.iterators && Size(d'.t0) > 0
            && (added <==> Get(d, h, e.key).None?)
            && DictSize(d') == DictSize(d) + (if added then 1 else 0)
            && (forall k :: Get(d', h, k) == if added && k == e.key then Some(e) else Get(d, h, k))
  {
    hide TableInv;
    StepKeeps(d, h);
    var d1 := Step(d, h);
    hide Step, ExpandIfNeeded;
    ExpandIfNeededKeeps(d1, h, canResize);
    var d2 := ExpandIfNeeded(d1, canResize).0;
    if Get(d2, h, e.key).None? {
      if Rehashing(d2) { AddToInv(d2.t1, h, e); } else { AddToInv(d2.t0, h, e); }
      hide TableGet, AddTo;
    }
  }

  lemma AddRefinesMap(d: Dict, h: Hasher, e: Entry, canResize: bool, m: map<Key, Value>)
    requires Valid(d, h) && Abs(d, h, m) && 2 * DictSize(d) < LONG_MAX
    ensures (Add(d, h, e, canResize).1 <==> e.key !in m)
    ensures Abs(Add(d, h, e, canResize).0, h, if e.key in m then m else m[e.key := e.val])
  {
    AddKeeps(d, h, e, canResize);
    hide Valid, Add, Get;
    var (d', added) := Add(d, h, e, canResize);
    if added { AbsUpdate(d, d', h, m, e.key, Some(e)); } else { SameGetsSameMap(d, d', h, m); }
  }

  lemma FindRefinesMap(d: Dict, h: Hasher, k: Key, m: map<Key, Value>)
    requires Valid(d, h) && Abs(d, h, m)
    ensures var (d', found) := Find(d, h, k);
            && Valid(d', h) && Abs(d', h, m) && d'.iterators == d.iterators
            && (found.Some? <==> k in m) && (k in m ==> found.value.val == m[k] && found.value.key == k)
            && (forall x :: Get(d', h, x) == Get(d, h, x)) && found == Get(d', h, k)
  {
    StepKeeps(d, h);
    TableGetIn(Step(d, h).t0, h, k);
    TableGetIn(Step(d, h).t1, h, k);
    hide TableInv, Step;
    SameGetsSameMap(d, Step(d, h), h, m);
  }

  lemma RemoveFromInv(t: Table, h: Hasher, k: Key)
    requires TableInv(t, h) && TableGet(t, h, k).Some?
    ensures TableInv(RemoveFrom(t, h, k), h) && RemoveFrom(t, h, k).used + 1 == t.used
    ensures forall x :: TableGet(RemoveFrom(t, h, k), h, x) == if x == k then None else TableGet(t, h, x)
  {
    var i := Idx(h, k, Size(t));
    ChainRemoveGet(t.buckets[i], k, k);
    TotalLenUpdate(t.buckets, i, []);
    BucketUpdate(t, h, i, ChainRemove(t.buckets[i], k), t.used - 1);
    forall x ensures TableGet(RemoveFrom(t, h, k), h, x) == if x == k then None else TableGet(t, h, x) {
      ChainRemoveGet(t.buckets[i], k, x);
    }
  }

  lemma SetInInv(t: Table, h: Hasher, k: Key, v: Value)
    requires TableInv(t, h) && TableGet(t, h, k).Some?
    ensures TableInv(SetIn(t, h, k, v), h)
    ensures forall x :: TableGet(SetIn(t, h, k, v), h, x)
                     == if x == k then Some(TableGet(t, h, k).value.(val := v)) else TableGet(t, h, x)
  {
    var i := Idx(h, k, Size(t));
    var c := ChainSet(t.buckets[i], k, v);
    ChainSetGet(t.buckets[i], k, v, k);
    forall e | e in c ensures Idx(h, e.key, Size(t)) == i {
      var j :| 0 <= j < |c| && c[j] == e;
      assert t.buckets[i][j].key == e.key;
    }
    BucketUpdate(t, h, i, c, t.used);
    forall x ensures TableGet(SetIn(t, h, k, v), h, x)
                  == if x == k then Some(TableGet(t, h, k).value.(val := v)) else TableGet(t, h, x) {
      ChainSetGet(t.buckets[i], k, v, x);
    }
  }

  lemma DeleteKeeps(d: Dict, h: Hasher, k: Key)
    requires Valid(d, h)
    ensures var (d', deleted) := Delete(d, h, k);
            && Valid(d', h) && d'.iterators == d.iterators
            && (deleted <==> Get(d, h, k).Some?)
            && DictSize(d') + (if deleted then 1 else 0) == DictSize(d)
            && (forall x :: Get(d', h, x) == if x == k then None else Get(d, h, x))
  {
    hide TableInv, Step;
    StepKeeps(d, h);
    var d1 := Step(d, h);
    if Size(d.t0) == 0 {
    } else if TableGet(d1.t0, h, k).Some? {
      RemoveFromInv(d1.t0, h, k);
      RemoveLength(d1.t0, h, k);
      hide TableGet, RemoveFrom;
    } else if TableGet(d1.t1, h, k).Some? {
      RemoveFromInv(d1.t1, h, k);
      RemoveLength(d1.t1, h, k);
      hide TableGet, RemoveFrom;
    }
  }

  lemma RemoveLength(t: Table, h: Hasher, k: Key)
    requires TableInv(t, h) && TableGet(t, h, k).Some?
    ensures Size(RemoveFrom(t, h, k)) == Size(t)
    ensures forall i | 0 <= i < Size(t) && t.buckets[i] == [] :: RemoveFrom(t, h, k).buckets[i] == []
  {
  }

  lemma DeleteRefinesMap(d: Dict, h: Hasher, k: Key, m: map<Key, Value>)
    requires Valid(d, h) && Abs(d, h, m)
    ensures (Delete(d, h, k).1 <==> k in m) && Abs(Delete(d, h, k).0, h, m - {k})
  {
    DeleteKeeps(d, h, k);
    hide Valid, Delete, Get;
    AbsUpdate(d, Delete(d, h, k).0, h, m, k, None);
  }

  lemma SetValueKeeps(d: Dict, h: Hasher, k: Key, v: Value)
    requires Valid(d, h) && Get(d, h, k).Some?
    ensures Valid(SetValue(d, h, k, v), h) && DictSize(SetValue(d, h, k, v)) == DictSize(d)
    ensures SetValue(d, h, k, v).iterators == d.iterators
    ensures forall x :: Get(SetValue(d, h, k, v), h, x)
                     == if x == k then Some(Get(d, h, k).value.(val := v)) else Get(d, h, x)
  {
    hide TableInv;
    if TableGet(d.t0, h, k).Some? { SetInInv(d.t0, h, k, v); } else { SetInInv(d.t1, h, k, v); }
    hide TableGet;
  }

  lemma ReplaceKeeps(d: Dict, h: Hasher, e: Entry, canResize: bool)
    requires Valid(d, h) && 2 * DictSize(d) < LONG_MAX
    ensures var (d', added) := Replace(d, h, e, canResize);
            && Valid(d', h) && d'.iterators == d.iterators
            && (added <==> Get(d, h, e.key).None?)
            && DictSize(d') == DictSize(d) + (if added then 1 else 0)
            && (forall k | k != e.key :: Get(d', h, k) == Get(d, h, k))
            && Get(d', h, e.key) == Some(if added then e else Get(d, h, e.key).value.(val := e.val))
  {
    hide TableInv, TableGet;
    AddKeeps(d, h, e, canResize);
    var (d1, added) := Add(d, h, e, canResize);
    if !added {
      StepKeeps(d1, h);
      SetValueKeeps(Step(d1, h), h, e.key, e.val);
    }
  }

  lemma ReplaceRefinesMap(d: Dict, h: Hasher, e: Entry, canResize: bool, m: map<Key, Value>)
    requires Valid(d, h) && Abs(d, h, m) && 2 * DictSize(d) < LONG_MAX
    ensures (Replace(d, h, e, canResize).1 <==> e.key !in m)
    ensures Abs(Replace(d, h, e, canResize).0, h, m[e.key := e.val])
  {
    ReplaceKeeps(d, h, e, canResize);
    hide Valid, Replace, Get;
    var (d', added) := Replace(d, h, e, canResize);
    AbsUpdate(d, d', h, m, e.key, Get(d', h, e.key));
  }

  // ------------------------------------------------------------------ whole runs

  datatype Op =
    | AddOp(e: Entry, canResize: bool)
    | ReplaceOp(e: Entry, canResize: bool)
    | DeleteOp(k: Key)
    | FindOp(k: Key)
    | ExpandOp(size: nat)
    | ResizeOp(canResize: bool)
    | RehashOp(n: nat)

  /** Table sizes stay below the point where C arithmetic overflows. */
  predicate Fits(d: Dict, op: Op) {
    2 * DictSize(d) < LONG_MAX && (op.ExpandOp? ==> op.size < LONG_MAX)
  }

  ghost function Apply(d: Dict, h: Hasher, op: Op): Dict
    requires Valid(d, h) && Fits(d, op)
  {
    match op
    case AddOp(e, canResize) => Add(d, h, e, canResize).0
    case ReplaceOp(e, canResize) => Replace(d, h, e, canResize).0
    case DeleteOp(k) => Delete(d, h, k).0
    case FindOp(k) => Find(d, h, k).0
    case ExpandOp(size) => Expand(d, size).0
    case ResizeOp(canResize) => Resize(d, canResize).0
    case RehashOp(n) => Rehash(d, h, n)
  }

  /** The same operation on a plain map. */
  function MapApply(m: map<Key, Value>, op: Op): map<Key, Value> {
    match op
    case AddOp(e, _) => if e.key in m then m else m[e.key := e.val]
    case ReplaceOp(e, _) => m[e.key := e.val]
    case DeleteOp(k) => m - {k}
    case _ => m
  }

  /** No operation unsounds the tables, and `iterators` is not theirs to change. */
  lemma ApplyKeeps(d: Dict, h: Hasher, op: Op)
    requires Valid(d, h) && Fits(d, op)
    ensures Valid(Apply(d, h, op), h) && Apply(d, h, op).iterators == d.iterators
  {
    hide Valid;
    match op
    case AddOp(e, canResize) => AddKeeps(d, h, e, canResize);
    case ReplaceOp(e, canResize) => ReplaceKeeps(d, h, e, canResize);
    case DeleteOp(k) => DeleteKeeps(d, h, k);
    case FindOp(k) => StepKeeps(d, h);
    case ExpandOp(size) => ExpandKeeps(d, h, size);
    case ResizeOp(canResize) => ExpandKeeps(d, h, if d.t0.used < INITIAL_SIZE then INITIAL_SIZE else d.t0.used);
    case RehashOp(n) => RehashKeeps(d, h, n);
  }

  lemma ApplyRefinesMap(d: Dict, h: Hasher, op: Op, m: map<Key, Value>)
    requires Valid(d, h) && Abs(d, h, m) && Fits(d, op)
    ensures Abs(Apply(d, h, op), h, MapApply(m, op))
  {
    hide Valid, Abs;
    match op
    case AddOp(e, canResize) => AddRefinesMap(d, h, e, canResize, m);
    case ReplaceOp(e, canResize) => ReplaceRefinesMap(d, h, e, canResize, m);
    case DeleteOp(k) => DeleteRefinesMap(d, h, k, m);
    case FindOp(k) => FindRefinesMap(d, h, k, m);
    case ExpandOp(size) => ExpandKeeps(d, h, size); SameGetsSameMap(d, Expand(d, size).0, h, m);
    case ResizeOp(canResize) =>
      var size := if d.t0.used < INITIAL_SIZE then INITIAL_SIZE else d.t0.used;
      ExpandKeeps(d, h, size);
      SameGetsSameMap(d, Expand(d, size).0, h, m);
    case RehashOp(n) => RehashKeeps(d, h, n); SameGetsSameMap(d, Rehash(d, h, n), h, m);
  }

  /**
    The dictionary after a sequence of operations on a new one, beside the plain map after the same
    operations; None if the tables would outgrow C arithmetic. In every reachable state the tables are
    sound and stand for the plain map.
   */
  ghost function After(h: Hasher, ops: seq<Op>): (r: Option<(Dict, map<Key, Value>)>)
    ensures r.Some? ==> Valid(r.value.0, h) && Abs(r.value.0, h, r.value.1)
    decreases |ops|
  {
    if ops == [] then Some((Created, map[]))
    else
      match After(h, ops[..|ops| - 1])
      case None => None
      case Some((d, m)) =>
        var op := ops[|ops| - 1];
        if !Fits(d, op) then None
        else
          ApplyKeeps(d, h, op);
          ApplyRefinesMap(d, h, op, m);
          Some((Apply(d, h, op), MapApply(m, op)))
  }
}
