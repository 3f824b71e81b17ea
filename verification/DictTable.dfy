/**
  The data of redisdict.c: chained tables whose size is a power of two, and a dictionary that is two
  of them while it is being rehashed. Chains are sequences from the bucket's head on; an entry's `id`
  stands for its address.
 */
module DictTable {
  import opened Basics

  type Key = string
  type Value = nat  // an opaque pointer

  /** A 32-bit hash value; nothing else is known of the hash function. */
  type Hash = n: nat | n < 0x1_0000_0000
  type Hasher = Key -> Hash

  datatype Entry = Entry(id: nat, key: Key, val: Value)
  type Chain = seq<Entry>
  type Buckets = seq<Chain>

  datatype Table = Table(buckets: Buckets, used: nat)

  const EmptyTable := Table([], 0)

  /** `rehashidx` is -1 when no rehashing is in progress. */
  datatype Dict = Dict(t0: Table, t1: Table, rehashidx: int, iterators: int)

  const Created := Dict(EmptyTable, EmptyTable, -1, 0)

  predicate Rehashing(d: Dict) {
    d.rehashidx != -1
  }

  function Size(t: Table): nat {
    |t.buckets|
  }

  /** The bucket of a key: for a power of two, hash & (size - 1). */
  function Idx(h: Hasher, k: Key, size: nat): (i: nat)
    requires size > 0
    ensures i < size
  {
    h(k) % size
  }

  // ------------------------------------------------------------------ chains

  function ChainGet(c: Chain, k: Key): Option<Entry> {
    if c == [] then None else if c[0].key == k then Some(c[0]) else ChainGet(c[1..], k)
  }

  /** Unlink the entry with the key. */
  function ChainRemove(c: Chain, k: Key): Chain {
    if c == [] then [] else if c[0].key == k then c[1..] else [c[0]] + ChainRemove(c[1..], k)
  }

  /** Overwrite the value of the entry with the key. */
  function ChainSet(c: Chain, k: Key, v: Value): Chain {
    if c == [] then [] else if c[0].key == k then [c[0].(val := v)] + c[1..] else [c[0]] + ChainSet(c[1..], k, v)
  }

  ghost predicate DistinctKeys(c: Chain) {
    forall i, j | 0 <= i < j < |c| :: c[i].key != c[j].key
  }

  lemma {:induction false} ChainGetIn(c: Chain, k: Key)
    ensures ChainGet(c, k).Some? ==> ChainGet(c, k).value in c && ChainGet(c, k).value.key == k
    ensures (exists e :: e in c && e.key == k) ==> ChainGet(c, k).Some?
  {
    if c != [] {
      ChainGetIn(c[1..], k);
      assert c == [c[0]] + c[1..];
    }
  }

  lemma {:induction false} ChainGetUnique(c: Chain, e: Entry)
    requires DistinctKeys(c) && e in c
    ensures ChainGet(c, e.key) == Some(e)
  {
    if c[0] != e {
      var i :| 0 <= i < |c| && c[i] == e;
      assert c[1..][i - 1] == e;
      ChainGetUnique(c[1..], e);
    }
  }

  lemma {:induction false} ChainRemoveGet(c: Chain, k: Key, x: Key)
    requires DistinctKeys(c)
    ensures ChainGet(ChainRemove(c, k), x) == if x == k then None else ChainGet(c, x)
    ensures DistinctKeys(ChainRemove(c, k))
    ensures forall e :: e in ChainRemove(c, k) <==> e in c && e.key != k
    ensures |ChainRemove(c, k)| == if ChainGet(c, k).Some? then |c| - 1 else |c|
  {
    if c != [] {
      var t := c[1..];
      assert c == [c[0]] + t;
      ChainRemoveGet(t, k, x);
      ChainGetIn(t, k);
      if c[0].key == k {
        ChainGetIn(t, x);
        assert forall e | e in t :: e.key != k;
      } else {
        assert ChainRemove(c, k)[1..] == ChainRemove(t, k);
      }
    }
  }

  lemma {:induction false} ChainSetGet(c: Chain, k: Key, v: Value, x: Key)
    requires DistinctKeys(c)
    ensures ChainGet(ChainSet(c, k, v), x)
         == if x == k && ChainGet(c, k).Some? then Some(ChainGet(c, k).value.(val := v)) else ChainGet(c, x)
    ensures |ChainSet(c, k, v)| == |c|
    ensures forall i | 0 <= i < |c| :: ChainSet(c, k, v)[i].key == c[i].key && ChainSet(c, k, v)[i].id == c[i].id
    ensures DistinctKeys(ChainSet(c, k, v))
  {
    if c != [] && c[0].key != k {
      ChainSetGet(c[1..], k, v, x);
      assert ChainSet(c, k, v)[1..] == ChainSet(c[1..], k, v);
    }
  }

  // ------------------------------------------------------------------ tables

  function TotalLen(bs: Buckets): nat {
    if bs == [] then 0 else |bs[0]| + TotalLen(bs[1..])
  }

  lemma {:induction false} TotalLenUpdate(bs: Buckets, i: nat, c: Chain)
    requires i < |bs|
    ensures TotalLen(bs[i := c]) + |bs[i]| == TotalLen(bs) + |c|
  {
    if i == 0 {
      assert bs[i := c][1..] == bs[1..];
    } else {
      assert bs[i := c][1..] == bs[1..][i - 1 := c];
      TotalLenUpdate(bs[1..], i - 1, c);
    }
  }

  lemma {:induction false} TotalLenZero(bs: Buckets)
    ensures TotalLen(bs) == 0 <==> forall i | 0 <= i < |bs| :: bs[i] == []
  {
    if bs != [] {
      TotalLenZero(bs[1..]);
      assert forall i | 1 <= i < |bs| :: bs[i] == bs[1..][i - 1];
      assert forall i | 0 <= i < |bs| - 1 :: bs[1..][i] == bs[i + 1];
    }
  }

  function TableGet(t: Table, h: Hasher, k: Key): Option<Entry> {
    if Size(t) == 0 then None else ChainGet(t.buckets[Idx(h, k, Size(t))], k)
  }

  /** Every entry sits in the bucket its hash selects, once, and `used` counts the entries. */
  ghost predicate TableInv(t: Table, h: Hasher) {
    && t.used == TotalLen(t.buckets)
    && (Size(t) != 0 ==> IsPow2(Size(t)))
    && (forall i, e | 0 <= i < Size(t) && e in t.buckets[i] :: Idx(h, e.key, Size(t)) == i)
    && (forall i | 0 <= i < Size(t) :: DistinctKeys(t.buckets[i]))
  }

  /** The table with one bucket replaced by a chain of the same or other entries. */
  lemma BucketUpdate(t: Table, h: Hasher, i: nat, c: Chain, used: nat)
    requires TableInv(t, h) && i < Size(t)
    requires DistinctKeys(c) && forall e | e in c :: Idx(h, e.key, Size(t)) == i
    requires used + |t.buckets[i]| == t.used + |c|
    ensures TableInv(Table(t.buckets[i := c], used), h)
    ensures forall k :: TableGet(Table(t.buckets[i := c], used), h, k)
                     == if Idx(h, k, Size(t)) == i then ChainGet(c, k) else TableGet(t, h, k)
  {
    hide DistinctKeys, ChainGet, TotalLen, IsPow2, Idx;
    TotalLenUpdate(t.buckets, i, c);
    var t' := Table(t.buckets[i := c], used);
    forall j, e | 0 <= j < Size(t') && e in t'.buckets[j] ensures Idx(h, e.key, Size(t')) == j {
      if j != i { assert e in t.buckets[j]; }
    }
  }

  lemma TableGetIn(t: Table, h: Hasher, k: Key)
    requires TableInv(t, h)
    ensures TableGet(t, h, k).Some? ==> TableGet(t, h, k).value.key == k
                                        && TableGet(t, h, k).value in t.buckets[Idx(h, k, Size(t))]
    ensures forall i, e | 0 <= i < Size(t) && e in t.buckets[i] && e.key == k :: TableGet(t, h, k) == Some(e)
  {
    if Size(t) != 0 {
      ChainGetIn(t.buckets[Idx(h, k, Size(t))], k);
      forall i, e | 0 <= i < Size(t) && e in t.buckets[i] && e.key == k ensures TableGet(t, h, k) == Some(e) {
        ChainGetUnique(t.buckets[i], e);
      }
    }
  }

  // ------------------------------------------------------------------ dictionaries

  function Get(d: Dict, h: Hasher, k: Key): Option<Entry> {
    if TableGet(d.t0, h, k).Some? then TableGet(d.t0, h, k) else TableGet(d.t1, h, k)
  }

  /**
    Both tables are sound and share no key. The second is in use only during a rehash, and then the
    buckets of the first below `rehashidx` are empty.
   */
  ghost predicate Valid(d: Dict, h: Hasher) {
    && TableInv(d.t0, h) && TableInv(d.t1, h)
    && d.rehashidx >= -1
    && (!Rehashing(d) ==> d.t1 == EmptyTable)
    && (Rehashing(d) ==>
          && Size(d.t0) > 0 && Size(d.t1) > 0 && d.rehashidx <= Size(d.t0)
          && forall i | 0 <= i < d.rehashidx :: d.t0.buckets[i] == [])
    && forall k :: TableGet(d.t0, h, k).None? || TableGet(d.t1, h, k).None?
  }

  function DictSize(d: Dict): nat {
    d.t0.used + d.t1.used
  }

  /** The dictionary stands for the finite map `m`. */
  ghost predicate Abs(d: Dict, h: Hasher, m: map<Key, Value>) {
    && (forall k :: k in m <==> Get(d, h, k).Some?)
    && (forall k | k in m :: Get(d, h, k).value.val == m[k])
    && |m| == DictSize(d)
  }

}
