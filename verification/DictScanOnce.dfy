/**
  The other half of the scan's promise: what it passes to the callback is in the dictionary, no call
  passes an entry twice, and over an unchanging table every entry is passed exactly once.
 */
module DictScanOnce {
  import opened Basics
  import opened BitWords
  import opened DictTable
  import opened DictOps
  import opened DictScan

  /** The expansion loop reads no bucket twice. */
  lemma {:induction false} ExpansionsDistinct(v: Word, k0: nat, k1: nat)
    requires k0 <= k1 <= |v|
    ensures forall i, j | 0 <= i < j < |Expansions(v, k0, k1)| :: Expansions(v, k0, k1)[i] != Expansions(v, k0, k1)[j]
    ensures forall b | b in Expansions(v, k0, k1) :: b < Pow2(k1)
    decreases Pow2(k1 - k0) - Val(v[k0..k1])
  {
    var v', b := NextExpansion(v, k0), Val(v[..k1]);
    BetweenCountsUp(v, k0, k1);
    ValBound(v[k0..k1]);
    ValBound(v'[k0..k1]);
    ValBound(v[..k1]);
    if Val(Between(v', k0, k1)) != 0 {
      ExpansionsDistinct(v', k0, k1);
      ExpansionsAre(v', k0, k1, v[..k1]);
      PrefixParts(v, k0, k1);
      assert Expansions(v, k0, k1) == [b] + Expansions(v', k0, k1);
    }
  }

  lemma {:induction false} CollectDistinct(t: Table, h: Hasher, js: seq<nat>)
    requires TableInv(t, h) && (forall i, j | 0 <= i < j < |js| :: js[i] != js[j])
    ensures DistinctKeys(Collect(t.buckets, js))
    ensures forall e | e in Collect(t.buckets, js) :: TableGet(t, h, e.key) == Some(e) && Idx(h, e.key, Size(t)) in js
  {
    if js != [] {
      var rest := Collect(t.buckets, js[1..]);
      assert js == [js[0]] + js[1..];
      CollectDistinct(t, h, js[1..]);
      if js[0] < Size(t) {
        var c := t.buckets[js[0]];
        forall e | e in c ensures TableGet(t, h, e.key) == Some(e) { TableGetIn(t, h, e.key); }
        assert js[0] !in js[1..];
        DistinctJoin(c, rest);
      } else {
        assert [] + rest == rest;
      }
    }
  }

  lemma DistinctJoin(c: Chain, c': Chain)
    requires DistinctKeys(c) && DistinctKeys(c') && forall e, e' | e in c && e' in c' :: e.key != e'.key
    ensures DistinctKeys(c + c')
  {
    var s := c + c';
    forall i, j | 0 <= i < j < |s| ensures s[i].key != s[j].key {
      if i < |c| <= j { assert s[i] in c && s[j] in c'; }
    }
  }

  /** In any state of a rehash, a call passes only entries of the dictionary, and none of them twice. */
  lemma EmitsEachOnce(d: Dict, h: Hasher, v: Word)
    requires Scannable(d, h, |v|)
    ensures forall e | e in ScanEmits(d, h, v) :: Get(d, h, e.key) == Some(e)
    ensures DistinctKeys(ScanEmits(d, h, v))
  {
    hide Val, Pow2, Collect, Expansions, TableInv, TableGet, DistinctKeys;
    if DictSize(d) > 0 {
      TablesFit(d, h, |v|);
      if !Rehashing(d) {
        CollectDistinct(d.t0, h, [Val(v[..Bits(d.t0)])]);
      } else {
        var k0, k1 := Bits(Small(d)), Bits(Large(d));
        var small, large := [Val(v[..k0])], Expansions(v, k0, k1);
        ExpansionsDistinct(v, k0, k1);
        CollectDistinct(Small(d), h, small);
        CollectDistinct(Large(d), h, large);
        DistinctJoin(Collect(Small(d).buckets, small), Collect(Large(d).buckets, large));
      }
    } else {
      NoneDistinct();
    }
  }

  lemma NoneDistinct()
    ensures DistinctKeys([])
  {
  }

  // ------------------------------------------------------------------ a whole scan

  /** All entries of a table, bucket by bucket. */
  function Entries(bs: Buckets): Chain {
    if bs == [] then [] else bs[0] + Entries(bs[1..])
  }

  lemma {:induction false} EntriesHas(bs: Buckets, e: Entry)
    ensures e in Entries(bs) <==> exists i :: 0 <= i < |bs| && e in bs[i]
  {
    if bs != [] {
      EntriesHas(bs[1..], e);
      assert bs == [bs[0]] + bs[1..];
      if e in Entries(bs[1..]) {
        var i :| 0 <= i < |bs| - 1 && e in bs[1..][i];
        assert e in bs[i + 1];
      }
      if i :| 0 <= i < |bs| && e in bs[i] && i > 0 { assert e in bs[1..][i - 1]; }
    }
  }

  /** Entries of buckets that share no key. */
  lemma {:induction false} EntriesDistinct(bs: Buckets)
    requires forall i | 0 <= i < |bs| :: DistinctKeys(bs[i])
    requires forall i, j, e, e' | 0 <= i < j < |bs| && e in bs[i] && e' in bs[j] :: e.key != e'.key
    ensures DistinctKeys(Entries(bs))
  {
    if bs != [] {
      var rest := bs[1..];
      assert forall i | 0 <= i < |rest| :: rest[i] == bs[i + 1];
      EntriesDistinct(rest);
      forall e, e' | e in bs[0] && e' in Entries(rest) ensures e.key != e'.key {
        EntriesHas(rest, e');
        var j :| 0 <= j < |rest| && e' in rest[j];
        assert e' in bs[j + 1];
      }
      DistinctJoin(bs[0], Entries(rest));
    }
  }

  lemma {:induction false} DistinctCount(c: Chain, e: Entry)
    requires DistinctKeys(c)
    ensures multiset(c)[e] == if e in c then 1 else 0
  {
    if c != [] {
      assert c == [c[0]] + c[1..];
      DistinctCount(c[1..], e);
      assert forall i | 0 <= i < |c| - 1 :: c[1..][i] == c[i + 1] && c[i + 1].key != c[0].key;
    }
  }

  /** What the first `n` calls on an unchanging dictionary pass to the callback. */
  ghost function EmittedBy(d: Dict, h: Hasher, w: nat, n: nat): Chain
    requires Scannable(d, h, w)
  {
    if n == 0 then [] else EmittedBy(d, h, w, n - 1) + ScanEmits(d, h, Cursor(d, h, Zeros(w), n - 1))
  }

  lemma CallEmitsBucket(d: Dict, h: Hasher, w: nat, n: nat)
    requires Scannable(d, h, w) && DictSize(d) > 0 && !Rehashing(d) && n < Size(d.t0)
    ensures BucketAt(d, h, w, n) < Size(d.t0)
    ensures ScanEmits(d, h, Cursor(d, h, Zeros(w), n)) == d.t0.buckets[BucketAt(d, h, w, n)]
  {
    TablesFit(d, h, w);
    var c := Cursor(d, h, Zeros(w), n);
    ValBound(c[..Bits(d.t0)]);
    var b := Val(c[..Bits(d.t0)]);
    hide Valid, Val, Pow2, Cursor;
    OneBucket(d.t0.buckets, b);
  }

  lemma OneBucket(bs: Buckets, b: nat)
    requires b < |bs|
    ensures Collect(bs, [b]) == bs[b]
  {
    assert [b][1..] == [];
    assert bs[b] + [] == bs[b];
  }

  lemma {:induction false} EmittedIs(d: Dict, h: Hasher, w: nat, n: nat, e: Entry)
    requires Scannable(d, h, w) && DictSize(d) > 0 && !Rehashing(d) && n <= Size(d.t0)
    ensures e in EmittedBy(d, h, w, n) <==>
              exists m :: 0 <= m < n && BucketAt(d, h, w, m) < Size(d.t0) && e in d.t0.buckets[BucketAt(d, h, w, m)]
  {
    hide Scannable, BucketAt, ScanEmits, Cursor;
    if n > 0 {
      EmittedIs(d, h, w, n - 1, e);
      CallEmitsBucket(d, h, w, n - 1);
    }
  }

  lemma {:induction false} EmittedDistinct(d: Dict, h: Hasher, w: nat, n: nat)
    requires Scannable(d, h, w) && DictSize(d) > 0 && !Rehashing(d) && n <= Size(d.t0)
    ensures DistinctKeys(EmittedBy(d, h, w, n))
  {
    hide Scannable, BucketAt, ScanEmits, Cursor, DistinctKeys, TableInv;
    if n == 0 {
      NoneDistinct();
    } else {
      EmittedDistinct(d, h, w, n - 1);
      CallEmitsBucket(d, h, w, n - 1);
      var b := BucketAt(d, h, w, n - 1);
      var m := StableScanReadsOnce(d, h, w, b);
      BucketKeys(d, h, w, b);
      forall e, e' | e in EmittedBy(d, h, w, n - 1) && e' in d.t0.buckets[b] ensures e.key != e'.key {
        EmittedIs(d, h, w, n - 1, e);
        var i :| 0 <= i < n - 1 && BucketAt(d, h, w, i) < Size(d.t0) && e in d.t0.buckets[BucketAt(d, h, w, i)];
        BucketKeys(d, h, w, BucketAt(d, h, w, i));
      }
      DistinctJoin(EmittedBy(d, h, w, n - 1), d.t0.buckets[b]);
    }
  }

  lemma BucketKeys(d: Dict, h: Hasher, w: nat, b: nat)
    requires Scannable(d, h, w) && b < Size(d.t0)
    ensures DistinctKeys(d.t0.buckets[b]) && forall e | e in d.t0.buckets[b] :: Idx(h, e.key, Size(d.t0)) == b
  {
    hide DistinctKeys;
  }

  lemma TableDistinct(d: Dict, h: Hasher, w: nat)
    requires Scannable(d, h, w)
    ensures DistinctKeys(Entries(d.t0.buckets))
  {
    hide Scannable, DistinctKeys;
    forall i | 0 <= i < Size(d.t0)
      ensures DistinctKeys(d.t0.buckets[i]) && forall e | e in d.t0.buckets[i] :: Idx(h, e.key, Size(d.t0)) == i
    {
      BucketKeys(d, h, w, i);
    }
    EntriesDistinct(d.t0.buckets);
  }

  /** Over the calls of one scan of an unchanging table, every entry is passed to the callback exactly once. */
  lemma StableScanEmitsOnce(d: Dict, h: Hasher, w: nat)
    requires Scannable(d, h, w) && DictSize(d) > 0 && !Rehashing(d)
    ensures multiset(EmittedBy(d, h, w, Size(d.t0))) == multiset(Entries(d.t0.buckets))
  {
    hide Scannable, DistinctKeys, BucketAt, EmittedBy, Entries;
    var all, n := EmittedBy(d, h, w, Size(d.t0)), Size(d.t0);
    EmittedDistinct(d, h, w, n);
    TableDistinct(d, h, w);
    forall e ensures multiset(all)[e] == multiset(Entries(d.t0.buckets))[e] {
      EmittedIs(d, h, w, n, e);
      EntriesHas(d.t0.buckets, e);
      if e in Entries(d.t0.buckets) {
        var b :| 0 <= b < n && e in d.t0.buckets[b];
        var m := StableScanReadsOnce(d, h, w, b);
      }
      DistinctCount(all, e);
      DistinctCount(Entries(d.t0.buckets), e);
    }
  }
}
