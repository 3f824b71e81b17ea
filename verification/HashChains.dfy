/** Bucket chains of uthash: what a bucket array and the chain links in memory represent. */
module HashChains {
  import opened Basics
  import opened HashSort
  import opened HashList

  /** UT_hash_bucket. */
  datatype Bucket = Bucket(hhHead: nat, count: nat, expandMult: nat)

  type Hashes = map<nat, nat>

  /** HASH_TO_BKT: the mask by one less than a power of two is the remainder. */
  function ToBkt(h: nat, n: nat): nat
    requires n > 0
  {
    h % n
  }

  /** What HASH_FSCK checks of one bucket, and that its items belong there. */
  ghost predicate ChainOk(next: Links, prev: Links, hashv: Hashes, n: nat, b: nat, bucket: Bucket, chain: seq<nat>)
    requires n > 0
  {
    && IsList(next, prev, bucket.hhHead, chain) && NoDup(chain) && bucket.count == |chain|
    && forall x | x in chain :: x in hashv && ToBkt(hashv[x], n) == b
  }

  ghost predicate ChainsOk(next: Links, prev: Links, hashv: Hashes, n: nat, buckets: seq<Bucket>,
                           chains: seq<seq<nat>>) {
    n > 0 && |buckets| == |chains| == n
    && forall b | 0 <= b < n :: ChainOk(next, prev, hashv, n, b, buckets[b], chains[b])
  }

  /** The chain an item is on. */
  ghost predicate OnChain(hashv: Hashes, n: nat, chains: seq<seq<nat>>, x: nat) {
    n > 0 && |chains| == n && x in hashv && x in chains[ToBkt(hashv[x], n)]
  }

  /** Exactly the items of the list are on chains, each on the one its hash selects. */
  ghost predicate Spread(hashv: Hashes, n: nat, chains: seq<seq<nat>>, items: seq<nat>) {
    && n > 0 && |chains| == n
    && (forall x | x in items :: OnChain(hashv, n, chains, x))
    && forall b, x | 0 <= b < n && x in chains[b] :: x in items
  }

  // ------------------------------------------------------------------ single lists

  /** Putting an element in front of a list. */
  lemma PushFront(next: Links, next': Links, prev: Links, prev': Links, first: nat, s: seq<nat>, x: nat)
    requires IsList(next, prev, first, s) && NoDup(s) && x !in s && x != 0
    requires next' == next[x := first] && prev' == if first != 0 then prev[x := 0][first := x] else prev[x := 0]
    ensures IsList(next', prev', x, [x] + s) && NoDup([x] + s)
  {
    hide Linked, Back;
    var r := [x] + s;
    assert r[1..] == s && r[0] == x;
    NoDupNonzero(s);
    LinkedFrame(next, next', s, 0);
    assert Linked(next', r, 0) by { PushLinked(next', s, x); }
    if s != [] {
      BackTail(prev, s, 0);
      NoDupHead(s);
      BackFrame(prev, prev', s[1..], s[0]);
      BackCons(prev', s, x);
    } else {
      BackFrame(prev, prev', s, 0);
      BackNone(prev', x);
    }
    assert Back(prev', r, 0) by { PushBack(prev', s, x); }
  }

  lemma PushLinked(next: Links, s: seq<nat>, x: nat)
    requires Linked(next, s, 0) && x in next && next[x] == First(s)
    ensures Linked(next, [x] + s, 0)
  {
  }

  lemma PushBack(prev: Links, s: seq<nat>, x: nat)
    requires Back(prev, s, x) && x in prev && prev[x] == 0
    ensures Back(prev, [x] + s, 0)
  {
  }

  lemma BackTail(prev: Links, s: seq<nat>, before: nat)
    requires Back(prev, s, before) && s != []
    ensures Back(prev, s[1..], s[0]) && s[0] in prev
  {
  }

  lemma BackCons(prev: Links, s: seq<nat>, before: nat)
    requires s != [] && s[0] in prev && prev[s[0]] == before && Back(prev, s[1..], s[0])
    ensures Back(prev, s, before)
  {
  }

  lemma BackNone(prev: Links, before: nat)
    ensures Back(prev, [], before)
  {
  }

  lemma NoDupHead(s: seq<nat>)
    requires NoDup(s) && s != []
    ensures s[0] !in s[1..] && s[0] != 0 && NoDup(s[1..])
  {
  }

  /** Taking an element out of a list. */
  lemma TakeOut(next: Links, next': Links, prev: Links, prev': Links, first: nat, s: seq<nat>, x: nat, t: seq<nat>)
    requires IsList(next, prev, first, s + [x] + t) && NoDup(s + [x] + t)
    requires next' == if s != [] then next[Last(s) := First(t)] else next
    requires prev' == if t != [] then prev[t[0] := Last(s)] else prev
    ensures x in next && x in prev && next[x] == First(t) && prev[x] == Last(s) && x != 0
    ensures IsList(next', prev', First(s + t), s + t) && NoDup(s + t)
  {
    hide Linked, Back, Open, NoDup;
    NoDupAround(s, x, t);
    TakeOutNext(next, next', s, x, t);
    TakeOutPrev(prev, prev', s, x, t);
  }

  lemma NoDupAround(s: seq<nat>, x: nat, t: seq<nat>)
    requires NoDup(s + [x] + t)
    ensures x != 0 && NoDup(s) && NoDup(t) && NoDup(s + t) && x !in t
    ensures forall y | y in s :: y !in [x] + t
  {
    hide NoDup;
    assert s + [x] + t == s + ([x] + t);
    NoDupAppend(s, [x] + t);
    NoDupAppend([x], t);
    NoDupAppend(s, t);
    NoDupOne(x);
    assert x in [x];
  }

  lemma TakeOutNext(next: Links, next': Links, s: seq<nat>, x: nat, t: seq<nat>)
    requires Linked(next, s + [x] + t, 0) && NoDup(s) && (forall y | y in s :: y !in [x] + t)
    requires next' == if s != [] then next[Last(s) := First(t)] else next
    ensures x in next && next[x] == First(t) && Linked(next', s + t, 0)
  {
    hide Back, NoDup;
    assert s + [x] + t == s + ([x] + t);
    LinkedSplit(next, s, [x] + t, 0);
    LinkedSplit(next, [x], t, 0);
    hide Linked;
    LastIn(s);
    assert forall y | y in t :: y in [x] + t;
    LinkedFrame(next, next', t, 0);
    if s != [] {
      var front := s[..|s| - 1];
      assert s == front + [Last(s)];
      LinkedIsOpen(next, s, x);
      OpenPrefix(next, front, Last(s));
      NoDupAppend(front, [Last(s)]);
      OpenFrame(next, next', front);
      OpenSnoc(next', front, Last(s));
      OpenEnd(next', s, First(t));
    } else {
      LinkedNone(next', First(t));
    }
    LinkedJoin(next', s, t, 0);
  }

  lemma LinkedNone(next: Links, end: nat)
    ensures Linked(next, [], end)
  {
  }

  lemma TakeOutPrev(prev: Links, prev': Links, s: seq<nat>, x: nat, t: seq<nat>)
    requires Back(prev, s + [x] + t, 0) && NoDup(t) && (forall y | y in s :: y !in [x] + t)
    requires prev' == if t != [] then prev[t[0] := Last(s)] else prev
    ensures x in prev && prev[x] == Last(s) && Back(prev', s + t, 0)
  {
    hide Linked;
    assert s + [x] + t == s + ([x] + t);
    BackSplit(prev, s, [x] + t, 0);
    BackSplit(prev, [x], t, if s == [] then 0 else Last(s));
    assert t != [] ==> t[0] in [x] + t by { assert t != [] ==> ([x] + t)[1] == t[0]; }
    hide Back, NoDup;
    BackFrame(prev, prev', s, 0);
    if t != [] {
      BackTail(prev, t, x);
      NoDupHead(t);
      BackFrame(prev, prev', t[1..], t[0]);
      BackCons(prev', t, Last(s));
    } else {
      BackNone(prev', Last(s));
    }
    BackJoin(prev', s, t, 0);
  }

  /** Putting an element after the last of a list. */
  lemma PutLast(next: Links, next': Links, prev: Links, prev': Links, first: nat, s: seq<nat>, x: nat)
    requires IsList(next, prev, first, s) && NoDup(s) && x !in s && x != 0
    requires next' == if s != [] then next[x := 0][Last(s) := x] else next[x := 0]
    requires prev' == prev[x := Last(s)]
    ensures IsList(next', prev', First(s + [x]), s + [x]) && NoDup(s + [x])
  {
    hide Linked, Back, Open, NoDup;
    NoDupAppend(s, [x]);
    NoDupOne(x);
    LastIn(s);
    BackFrame(prev, prev', s, 0);
    BackSnoc(prev', s, 0, x);
    LinkedIsOpen(next, s, 0);
    if s != [] {
      var front := s[..|s| - 1];
      assert s == front + [Last(s)];
      OpenPrefix(next, front, Last(s));
      NoDupAppend(front, [Last(s)]);
      OpenFrame(next, next', front);
      OpenSnoc(next', front, Last(s));
    } else {
      OpenFrame(next, next', s);
    }
    OpenSnoc(next', s, x);
    OpenEnd(next', s + [x], 0);
  }

  // ------------------------------------------------------------------ all buckets

  lemma ChainFrame(next: Links, next': Links, prev: Links, prev': Links, hashv: Hashes, n: nat, b: nat,
                   bucket: Bucket, chain: seq<nat>)
    requires n > 0 && ChainOk(next, prev, hashv, n, b, bucket, chain)
    requires SameLinks(next, next', chain) && SameLinks(prev, prev', chain)
    ensures ChainOk(next', prev', hashv, n, b, bucket, chain)
  {
    hide Linked, Back, NoDup;
    LinkedFrame(next, next', chain, 0);
    BackFrame(prev, prev', chain, 0);
  }

  /** An item is pushed onto the chain its hash selects; no other chain changes. */
  lemma PushChain(next: Links, next': Links, prev: Links, prev': Links, hashv: Hashes, n: nat,
                  buckets: seq<Bucket>, chains: seq<seq<nat>>, x: nat, mult: nat)
    requires ChainsOk(next, prev, hashv, n, buckets, chains) && x != 0 && x in hashv && x !in chains[ToBkt(hashv[x], n)]
    requires var first := buckets[ToBkt(hashv[x], n)].hhHead;
             next' == next[x := first] && prev' == if first != 0 then prev[x := 0][first := x] else prev[x := 0]
    ensures var b := ToBkt(hashv[x], n);
            ChainsOk(next', prev', hashv, n, buckets[b := Bucket(x, buckets[b].count + 1, mult)],
              chains[b := [x] + chains[b]])
  {
    hide IsList, NoDup, SameLinks;
    var b := ToBkt(hashv[x], n);
    var first := buckets[b].hhHead;
    assert ChainOk(next, prev, hashv, n, b, buckets[b], chains[b]);
    PushFront(next, next', prev, prev', first, chains[b], x);
    FirstOf(next, prev, first, chains[b]);
    var buckets', chains' := buckets[b := Bucket(x, buckets[b].count + 1, mult)], chains[b := [x] + chains[b]];
    assert ChainOk(next', prev', hashv, n, b, buckets'[b], chains'[b]);
    forall c | 0 <= c < n ensures ChainOk(next', prev', hashv, n, c, buckets'[c], chains'[c]) {
      if c != b {
        assert ChainOk(next, prev, hashv, n, c, buckets[c], chains[c]);
        Untouched(next, next', chains[c], x, first);
        Untouched(prev, prev', chains[c], x, first);
        ChainFrame(next, next', prev, prev', hashv, n, c, buckets[c], chains[c]);
      }
    }
  }

  lemma FirstOf(next: Links, prev: Links, first: nat, s: seq<nat>)
    requires IsList(next, prev, first, s)
    ensures first == First(s) && (s != [] ==> first in s)
  {
  }

  lemma Untouched(m: Links, m': Links, s: seq<nat>, x: nat, y: nat)
    requires x !in s && (y != 0 ==> y !in s)
    requires forall k | k in m && k != x && (y == 0 || k != y) :: k in m' && m'[k] == m[k]
    ensures SameLinks(m, m', s)
  {
  }

  /** An item is taken off the chain it is on; no other chain changes. */
  lemma PullChain(next: Links, next': Links, prev: Links, prev': Links, hashv: Hashes, n: nat,
                  buckets: seq<Bucket>, chains: seq<seq<nat>>, s: seq<nat>, x: nat, t: seq<nat>)
    requires ChainsOk(next, prev, hashv, n, buckets, chains) && x in hashv && chains[ToBkt(hashv[x], n)] == s + [x] + t
    requires next' == if s != [] then next[Last(s) := First(t)] else next
    requires prev' == if t != [] then prev[t[0] := Last(s)] else prev
    ensures var b := ToBkt(hashv[x], n);
            && x in next && x in prev && next[x] == First(t) && prev[x] == Last(s) && x != 0
            && buckets[b].hhHead == First(s + [x]) && buckets[b].count > 0 &&
            var bucket := buckets[b].(hhHead := First(s + t), count := buckets[b].count - 1);
            ChainsOk(next', prev', hashv, n, buckets[b := bucket], chains[b := s + t])
  {
    hide IsList, NoDup, SameLinks;
    var b := ToBkt(hashv[x], n);
    assert ChainOk(next, prev, hashv, n, b, buckets[b], chains[b]);
    FirstOf(next, prev, buckets[b].hhHead, chains[b]);
    TakeOut(next, next', prev, prev', buckets[b].hhHead, s, x, t);
    assert forall y | y in s + t :: y in s + [x] + t;
    var bucket := buckets[b].(hhHead := First(s + t), count := buckets[b].count - 1);
    var buckets', chains' := buckets[b := bucket], chains[b := s + t];
    assert ChainOk(next', prev', hashv, n, b, buckets'[b], chains'[b]);
    LastIn(s);
    assert s != [] ==> Last(s) in chains[b];
    assert t != [] ==> t[0] in chains[b];
    forall c | 0 <= c < n ensures ChainOk(next', prev', hashv, n, c, buckets'[c], chains'[c]) {
      if c != b {
        assert ChainOk(next, prev, hashv, n, c, buckets[c], chains[c]);
        Unmoved(next, next', chains[c], Last(s), s != []);
        Unmoved(prev, prev', chains[c], First(t), t != []);
        ChainFrame(next, next', prev, prev', hashv, n, c, buckets[c], chains[c]);
      }
    }
  }

  lemma Unmoved(m: Links, m': Links, s: seq<nat>, y: nat, changed: bool)
    requires changed ==> y !in s && m' == m[y := if y in m' then m'[y] else 0]
    requires !changed ==> m' == m
    ensures SameLinks(m, m', s)
  {
  }

  // ------------------------------------------------------------------ counts

  /** The total over the buckets of max(0, count - ideal). */
  function Excess(buckets: seq<Bucket>, ideal: nat): nat {
    if buckets == [] then 0
    else (if buckets[0].count > ideal then buckets[0].count - ideal else 0) + Excess(buckets[1..], ideal)
  }

  lemma {:induction false} ExcessUpdate(buckets: seq<Bucket>, b: nat, bucket: Bucket, ideal: nat)
    requires b < |buckets| && bucket.count == buckets[b].count + 1
    ensures Excess(buckets[b := bucket], ideal) == Excess(buckets, ideal) + if bucket.count > ideal then 1 else 0
  {
    if b == 0 {
      assert buckets[b := bucket][1..] == buckets[1..];
    } else {
      assert buckets[b := bucket][1..] == buckets[1..][b - 1 := bucket];
      ExcessUpdate(buckets[1..], b - 1, bucket, ideal);
    }
  }

  lemma {:induction false} ExcessEmpty(buckets: seq<Bucket>, ideal: nat)
    requires forall b | 0 <= b < |buckets| :: buckets[b].count == 0
    ensures Excess(buckets, ideal) == 0
  {
    if buckets != [] { ExcessEmpty(buckets[1..], ideal); }
  }

  /** HASH_EXPAND_BUCKETS' formula: the quotient, and one more unless it is exact. */
  function IdealMax(items: nat, n: nat): nat
    requires n > 0
  {
    items / n + if items % n != 0 then 1 else 0
  }

  /** It is the least whole number not below items / n. */
  lemma IdealIsCeiling(items: nat, n: nat)
    requires n > 0
    ensures IdealMax(items, n) * n >= items
    ensures IdealMax(items, n) > 0 ==> (IdealMax(items, n) - 1) * n < items
    ensures items > 0 ==> IdealMax(items, n) > 0
  {
  }

  /** All chains one after the other. */
  ghost function Flat(chains: seq<seq<nat>>): seq<nat> {
    if chains == [] then [] else Flat(chains[..|chains| - 1]) + chains[|chains| - 1]
  }

  function SumCounts(buckets: seq<Bucket>): nat {
    if buckets == [] then 0 else SumCounts(buckets[..|buckets| - 1]) + buckets[|buckets| - 1].count
  }

  lemma {:induction false} FlatIs(next: Links, prev: Links, hashv: Hashes, n: nat, buckets: seq<Bucket>,
                                  chains: seq<seq<nat>>, k: nat)
    requires ChainsOk(next, prev, hashv, n, buckets, chains) && k <= n
    ensures NoDup(Flat(chains[..k])) && |Flat(chains[..k])| == SumCounts(buckets[..k])
    ensures forall x :: x in Flat(chains[..k]) <==> exists b :: 0 <= b < k && x in chains[b]
    decreases k
  {
    hide IsList;
    if k > 0 {
      FlatIs(next, prev, hashv, n, buckets, chains, k - 1);
      assert chains[..k][..k - 1] == chains[..k - 1] && buckets[..k][..k - 1] == buckets[..k - 1];
      var f, c := Flat(chains[..k - 1]), chains[k - 1];
      assert ChainOk(next, prev, hashv, n, k - 1, buckets[k - 1], c);
      assert Flat(chains[..k]) == f + c;
      forall x | x in f ensures x !in c {
        var b :| 0 <= b < k - 1 && x in chains[b];
        assert ChainOk(next, prev, hashv, n, b, buckets[b], chains[b]);
      }
      NoDupAppend(f, c);
    }
  }

  lemma {:induction false} NoDupCount(s: seq<nat>)
    requires NoDup(s)
    ensures |ToSet(s)| == |s|
  {
    if s != [] {
      NoDupCount(s[1..]);
      assert s == [s[0]] + s[1..];
      assert ToSet(s) == {s[0]} + ToSet(s[1..]);
    }
  }

  /** The counts HASH_FSCK adds up come to the number of items in the list. */
  lemma CountsAddUp(next: Links, prev: Links, hashv: Hashes, n: nat, buckets: seq<Bucket>, chains: seq<seq<nat>>,
                    items: seq<nat>)
    requires ChainsOk(next, prev, hashv, n, buckets, chains) && NoDup(items)
    requires Spread(hashv, n, chains, items)
    ensures SumCounts(buckets) == |items|
  {
    hide NoDup, ChainOk;
    FlatIs(next, prev, hashv, n, buckets, chains, n);
    assert chains[..n] == chains && buckets[..n] == buckets;
    var f := Flat(chains);
    forall x ensures x in f <==> x in items {
      if x in items { assert x in chains[ToBkt(hashv[x], n)]; }
    }
    NoDupCount(f);
    NoDupCount(items);
    assert ToSet(f) == ToSet(items);
  }

  /** The shift and the mask compute the quotient and the remainder by the new number of buckets. */
  lemma ShiftIs(items: nat, n: nat, log2: nat)
    requires items > 0 && n == Pow2(log2)
    ensures Pow2(log2 + 1) == 2 * n
    ensures items / Pow2(log2 + 1) + (if items % (2 * n) != 0 then 1 else 0) == IdealMax(items, 2 * n) > 0
  {
  }

  // ------------------------------------------------------------------ redistribution

  /** The items already on a new chain: those of the old buckets below `i`, and those of bucket `i` not in `r`. */
  ghost predicate Moved(hashv: Hashes, n: nat, nc: seq<seq<nat>>, items: seq<nat>, i: nat, r: seq<nat>) {
    && n > 0 && |nc| == 2 * n
    && (forall x | x in items :: x in hashv &&
          (OnChain(hashv, 2 * n, nc, x) <==> ToBkt(hashv[x], n) < i || (ToBkt(hashv[x], n) == i && x !in r)))
    && forall c, x | 0 <= c < 2 * n && x in nc[c] :: x in items
  }

  /** One item moves. */
  lemma MoveOne(hashv: Hashes, n: nat, nc: seq<seq<nat>>, items: seq<nat>, i: nat, r: seq<nat>)
    requires Moved(hashv, n, nc, items, i, r) && r != [] && NoDup(r) && r[0] in items && ToBkt(hashv[r[0]], n) == i
    ensures var b := ToBkt(hashv[r[0]], 2 * n);
            b < 2 * n && r[0] !in nc[b] && Moved(hashv, n, nc[b := [r[0]] + nc[b]], items, i, r[1..])
  {
  }

  /** Buckets after an expansion note by how much they exceed the ideal. */
  ghost predicate MultsOk(buckets: seq<Bucket>, ideal: nat)
    requires ideal > 0
  {
    forall b | 0 <= b < |buckets| ::
      buckets[b].expandMult == if buckets[b].count > ideal then buckets[b].count / ideal else 0
  }
}
