/**
  uthash: every item is on two doubly linked lists, the insertion-order list and the chain of its
  bucket. The address of an item stands for the item and for the handle inside it.
 */
module HashTable {
  import opened Basics
  import opened HashSort
  import opened HashList
  import opened HashChains
  import opened HashShape

  class Table {
    var head: nat
    var tail: nat
    var next: Links
    var prev: Links
    ghost var items: seq<nat>

    /** The insertion-order list: `items` in order, `prev` inverse to `next`, `tail` its last element. */
    ghost predicate ListValid()
      reads this
    {
      IsList(next, prev, head, items) && tail == Last(items) && NoDup(items)
    }

    // ---------------------------------------------------------------- HASH_SRT

    /** The for loop of HASH_SRT: steps over up to `insize` elements. */
    method SkipRun(p: nat, insize: nat, ghost r: seq<nat>) returns (q: nat, psize: nat)
      requires insize > 0 && r != [] && p == First(r) && Linked(next, r, 0) && NoDup(r)
      ensures psize == MinNat(insize, |r|) && q == First(r[psize..])
    {
      hide Linked, NoDup;
      NoDupNonzero(r);
      q := p;
      psize := 0;
      for i := 0 to insize
        invariant psize == i < |r| && q == First(r[psize..]) && Linked(next, r[psize..], 0)
      {
        psize := psize + 1;
        LinkedTail(next, r[psize - 1..], 0);
        assert r[psize - 1..][1..] == r[psize..];
        q := next[q];
        if q == 0 {
          FirstZero(r, psize);
          break;
        }
      }
    }

    /** Appending an element to the output list. */
    method Emit(e: nat, list0: nat, last: nat) returns (list: nat)
      modifies this`next, this`prev
      ensures next == (if last != 0 then old(next)[last := e] else old(next)) && prev == old(prev)[e := last]
      ensures list == if last != 0 then list0 else e
    {
      list := list0;
      if last != 0 {
        next := next[last := e];
      } else {
        list := e;
      }
      prev := prev[e := last];
    }

    /** The innermost loop of HASH_SRT: merges the run at `p0` with the run at `q0`. */
    method MergeRuns(cmp: (nat, nat) -> int, p0: nat, q0: nat, psize0: nat, insize: nat, list0: nat, tail0: nat,
                     ghost o0: seq<nat>, ghost ps0: seq<nat>, ghost qs0: seq<nat>)
      returns (q: nat, list: nat, last: nat)
      requires Merging(next, prev, list0, tail0, p0, q0, o0, ps0, qs0) && |ps0| == psize0
      requires next.Keys == prev.Keys
      modifies this`next, this`prev
      ensures Merging(next, prev, list, last, 0, q, o0 + Merge(ps0, RunOf(qs0, insize), cmp), [], RestOf(qs0, insize))
      ensures next.Keys == old(next.Keys) && prev.Keys == old(prev.Keys)
    {
      hide Merging, Merge, RunOf, RestOf;
      var p, psize, qsize := p0, psize0, insize;
      q, list, last := q0, list0, tail0;
      ghost var o, ps, qs := o0, ps0, qs0;
      MergingFacts(next, prev, list, last, p, q, o, ps, qs);
      while psize > 0 || (qsize > 0 && q != 0)
        invariant Merging(next, prev, list, last, p, q, o, ps, qs) && |ps| == psize
        invariant o + Merge(ps, RunOf(qs, qsize), cmp) == o0 + Merge(ps0, RunOf(qs0, insize), cmp)
        invariant RestOf(qs, qsize) == RestOf(qs0, insize)
        invariant next.Keys == prev.Keys == old(next.Keys)
        invariant (q == 0 <==> qs == []) && (q != 0 ==> q == qs[0] && q in next)
        invariant (psize > 0 ==> p == ps[0] && p in next)
        invariant last != 0 ==> last in next
        decreases psize + |qs|
      {
        var e: nat;
        ghost var run := RunOf(qs, qsize);
        RunFirst(qs, qsize);
        if psize == 0 {
          e := q;
          q := next[q];
          qsize := qsize - 1;
        } else if qsize == 0 || q == 0 {
          e := p;
          p := next[p];
          psize := psize - 1;
        } else if cmp(p, q) <= 0 {
          e := p;
          p := next[p];
          psize := psize - 1;
        } else {
          e := q;
          q := next[q];
          qsize := qsize - 1;
        }
        ghost var n0, v0, l0, t0 := next, prev, list, last;
        list := Emit(e, list, last);
        last := e;
        if psize < |ps| {
          MergeStepP(o, ps, run, cmp);
          TakeP(n0, next, v0, prev, l0, t0, e, q, o, ps, qs);
          o, ps := o + [e], ps[1..];
        } else {
          MergeStepQ(o, ps, run, cmp);
          RunStep(qs, qsize + 1);
          TakeQ(n0, next, v0, prev, l0, t0, p, e, o, ps, qs);
          o, qs := o + [e], qs[1..];
        }
        MergingFacts(next, prev, list, last, p, q, o, ps, qs);
      }
      RunOver(o, qs, qsize, cmp);
      MergingNoP(next, prev, list, last, p, q, o, ps, qs);
    }

    /** One round of HASH_SRT's outer loop, up to the assignment of the last next pointer. */
    method MergePass(cmp: (nat, nat) -> int, first: nat, insize: nat, ghost s: seq<nat>)
      returns (list: nat, last: nat, nmerges: nat)
      requires insize > 0 && s != [] && Linked(next, s, 0) && NoDup(s) && first == First(s)
      requires next.Keys == prev.Keys
      modifies this`next, this`prev
      ensures nmerges <= 1 <==> |s| <= 2 * insize
      ensures next.Keys == old(next.Keys) && prev.Keys == old(prev.Keys)
      ensures IsList(next, prev, list, Pass(s, insize, cmp)) && last == Last(Pass(s, insize, cmp))
      ensures NoDup(Pass(s, insize, cmp))
    {
      hide Merging, Merge, Linked, NoDup, Pass, Back, IsList;
      var p := first;
      list, last, nmerges := 0, 0, 0;
      ghost var o, r: seq<nat> := [], s;
      MergingStart(next, prev, first, s);
      PassLength(s, insize, cmp);
      while p != 0
        invariant Merging(next, prev, list, last, 0, p, o, [], r) && next.Keys == prev.Keys == old(next.Keys)
        invariant o + Pass(r, insize, cmp) == Pass(s, insize, cmp) && |o| + |r| == |s|
        invariant nmerges == 0 ==> o == []
        invariant nmerges == 1 ==> |o| <= 2 * insize && (r != [] ==> |o| == 2 * insize)
        invariant nmerges >= 2 ==> |o| > 2 * insize
        decreases |r|
      {
        nmerges := nmerges + 1;
        MergingFacts(next, prev, list, last, 0, p, o, [], r);
        MergingRest(next, prev, list, last, 0, p, o, [], r);
        var q, psize := SkipRun(p, insize, r);
        ghost var i, j := MinNat(insize, |r|), MinNat(2 * insize, |r|);
        MergingSplit(next, prev, list, last, p, q, o, r, i);
        q, list, last := MergeRuns(cmp, p, q, psize, insize, list, last, o, r[..i], r[i..]);
        PassStep(o, r, insize, cmp);
        o, r := o + Merge(r[..i], r[i..j], cmp), r[j..];
        p := q;
      }
      MergingFacts(next, prev, list, last, 0, p, o, [], r);
      PassNone(o, insize, cmp);
      ghost var n0 := next;
      if last != 0 {
        next := next[last := 0];
      }
      MergingEnd(n0, next, prev, list, last, o);
    }

    /** HASH_SRT. */
    method Sort(cmp: (nat, nat) -> int)
      requires ListValid() && Preorder(cmp) && next.Keys == prev.Keys
      modifies this`head, this`tail, this`next, this`prev, this`items
      ensures ListValid() && next.Keys == prev.Keys == old(next.Keys) && (old(Valid()) ==> Valid())
      ensures (head == 0 <==> old(head) == 0) && Numbers() == old(Numbers()) && hashv == old(hashv)
      ensures items == HashSort.Sort(old(items), 1, cmp) && Ordered(items, cmp)
      ensures multiset(items) == multiset(old(items))
      ensures forall a :: Equals(items, a, cmp) == Equals(old(items), a, cmp)
    {
      hide Linked, NoDup, Back, Ordered, Equals, Preorder, Pass, HashSort.Sort, ChainsOk, Spread;
      SortIsStableSort(items, cmp);
      SpreadPermuted(hashv, numBuckets, chains, items, HashSort.Sort(items, 1, cmp));
      if head != 0 {
        var insize := 1;
        var looping := true;
        var list := head;
        ghost var s := items;
        while looping
          invariant insize > 0 && next.Keys == prev.Keys == old(next.Keys)
          invariant looping ==> s != [] && Linked(next, s, 0) && NoDup(s) && list == First(s) && items == old(items)
          invariant looping ==> HashSort.Sort(s, insize, cmp) == HashSort.Sort(old(items), 1, cmp)
          invariant !looping ==> ListValid() && items == HashSort.Sort(old(items), 1, cmp)
          decreases looping, if |s| > insize then |s| - insize else 0
        {
          var last, nmerges;
          list, last, nmerges := MergePass(cmp, list, insize, s);
          PassLength(s, insize, cmp);
          SortStep(s, insize, cmp);
          if nmerges <= 1 {
            looping := false;
            tail := last;
            head := list;
            items := Pass(s, insize, cmp);
          }
          s := Pass(s, insize, cmp);
          insize := insize * 2;
        }
      } else {
        NoDupNonzero(items);
        FirstZero(items, 0);
        SortStep([], 1, cmp);
      }
      NoDupNonzero(items);
      FirstZero(items, 0);
    }

    // ---------------------------------------------------------------- the buckets

    var hhNext: Links
    var hhPrev: Links
    var hashv: Hashes
    var buckets: seq<Bucket>
    var numBuckets: nat
    var log2NumBuckets: nat
    var numItems: nat
    var idealChainMaxlen: nat
    var nonidealItems: nat
    var ineffExpands: nat
    var noexpand: bool
    ghost var chains: seq<seq<nat>>
    ghost var expansions: seq<bool>

    /** The numbers of the table. */
    ghost function Numbers(): Shape
      reads this`buckets, this`idealChainMaxlen, this`nonidealItems, this`ineffExpands, this`noexpand, this`expansions
    {
      Shape(Counts(buckets), Mults(buckets), idealChainMaxlen, nonidealItems, ineffExpands, noexpand, expansions)
    }

    /** Every item is on the chain of its bucket, and on no other; chains, counts and links agree. */
    ghost predicate BucketsValid()
      reads this
    {
      && ChainsOk(hhNext, hhPrev, hashv, numBuckets, buckets, chains) && Spread(hashv, numBuckets, chains, items)
      && numItems == |items| && numBuckets == Pow2(log2NumBuckets)
    }

    /** The invariant of the table; without items there is no table. */
    ghost predicate Valid()
      reads this
    {
      ListValid() && next.Keys == prev.Keys && (head != 0 ==> BucketsValid() && ShapeInv(Numbers()))
    }

    /** The walk of HASH_FSCK along one chain: every hh_prev is right; the number of items. */
    method CheckChain(b: nat) returns (ok: bool, count: nat)
      requires BucketsValid() && b < numBuckets
      ensures ok && count == buckets[b].count
    {
      hide NoDup;
      ok, count := true, 0;
      OldChain(hhNext, hhPrev, hashv, numBuckets, buckets, chains, b);
      ghost var chain := chains[b];
      ChainLinks(hhNext, hhPrev, hashv, numBuckets, buckets, chains, b);
      NoDupNonzero(chain);
      var thh, before := buckets[b].hhHead, 0;
      hide Linked, Back, ChainsOk;
      while thh != 0
        invariant ok && count <= |chain| && thh == First(chain[count..])
        invariant Linked(hhNext, chain[count..], 0) && Back(hhPrev, chain[count..], before)
        decreases |chain| - count
      {
        FirstZero(chain, count);
        LinkedTail(hhNext, chain[count..], 0);
        BackTail(hhPrev, chain[count..], before);
        BackHead(hhPrev, chain[count..], before);
        assert chain[count..][1..] == chain[count + 1..];
        if before != hhPrev[thh] {
          ok := false;
        }
        count := count + 1;
        before := thh;
        thh := hhNext[thh];
      }
      FirstZero(chain, count);
    }

    /** The walk of HASH_FSCK along the insertion order. */
    method CheckList() returns (ok: bool, count: nat)
      requires ListValid()
      ensures ok && count == |items|
    {
      ok, count := true, 0;
      NoDupNonzero(items);
      var thh, before := head, 0;
      assert items[0..] == items;
      hide Linked, Back, NoDup;
      while thh != 0
        invariant ok && count <= |items| && thh == First(items[count..])
        invariant Linked(next, items[count..], 0) && Back(prev, items[count..], before)
        decreases |items| - count
      {
        FirstZero(items, count);
        LinkedTail(next, items[count..], 0);
        BackTail(prev, items[count..], before);
        BackHead(prev, items[count..], before);
        assert items[count..][1..] == items[count + 1..];
        if before != prev[thh] {
          ok := false;
        }
        count := count + 1;
        before := thh;
        thh := next[thh];
      }
      FirstZero(items, count);
    }

    /** HASH_FSCK: it has nothing to complain of. */
    method Fsck() returns (ok: bool)
      requires Valid()
      ensures ok
    {
      hide ChainsOk, Spread, NoDup, Linked, Back;
      ok := true;
      if head != 0 {
        var count := 0;
        ChainsLength(hhNext, hhPrev, hashv, numBuckets, buckets, chains);
        for i := 0 to numBuckets
          invariant ok && count == SumCounts(buckets[..i])
        {
          var good, bktCount := CheckChain(i);
          count := count + bktCount;
          ok := ok && good && buckets[i].count == bktCount;
          assert buckets[..i + 1][..i] == buckets[..i];
        }
        assert buckets[..numBuckets] == buckets;
        FsckAgrees();
        ok := ok && count == numItems;
        var listOk, listCount := CheckList();
        ok := ok && listOk && listCount == numItems;
      }
    }

    /** HASH_FSCK: the bucket counts add up to the number of items, and so does the list. */
    lemma FsckAgrees()
      requires Valid() && head != 0
      ensures SumCounts(buckets) == numItems == |items|
    {
      hide NoDup, ChainsOk, Spread;
      CountsAddUp(hhNext, hhPrev, hashv, numBuckets, buckets, chains, items);
    }

    constructor ()
      ensures Valid() && items == []
    {
      head, tail, numItems := 0, 0, 0;
      next, prev, hhNext, hhPrev, hashv := map[], map[], map[], map[], map[];
      buckets, numBuckets, log2NumBuckets := [], 1, 0;
      idealChainMaxlen, nonidealItems, ineffExpands, noexpand := 0, 0, 0, false;
      items, chains, expansions := [], [], [];
    }

    /** The body of the inner loop of HASH_EXPAND_BUCKETS. */
    method MoveItem(thh: nat, n: nat, ideal: nat, nb0: seq<Bucket>, ghost nc0: seq<seq<nat>>)
      returns (nb: seq<Bucket>, ghost nc: seq<seq<nat>>)
      requires n > 0 && ideal > 0 && ChainsOk(hhNext, hhPrev, hashv, 2 * n, nb0, nc0)
      requires thh != 0 && thh in hashv && thh !in nc0[ToBkt(hashv[thh], 2 * n)]
      requires MultsOk(nb0, ideal) && nonidealItems == Excess(nb0, ideal)
      modifies this`hhNext, this`hhPrev, this`nonidealItems
      ensures var b := ToBkt(hashv[thh], 2 * n); nc == nc0[b := [thh] + nc0[b]]
      ensures ChainsOk(hhNext, hhPrev, hashv, 2 * n, nb, nc)
      ensures MultsOk(nb, ideal) && nonidealItems == Excess(nb, ideal)
      ensures OneLink(old(hhNext), hhNext, thh)
    {
      hide ChainsOk, Excess;
      var bkt := ToBkt(hashv[thh], 2 * n);
      ChainsLength(hhNext, hhPrev, hashv, 2 * n, nb0, nc0);
      var newbkt := nb0[bkt];
      newbkt := newbkt.(count := newbkt.count + 1);
      if newbkt.count > ideal {
        nonidealItems := nonidealItems + 1;
        newbkt := newbkt.(expandMult := newbkt.count / ideal);
      }
      hhPrev := hhPrev[thh := 0];
      hhNext := hhNext[thh := newbkt.hhHead];
      if newbkt.hhHead != 0 {
        hhPrev := hhPrev[newbkt.hhHead := thh];
      }
      nb := nb0[bkt := newbkt.(hhHead := thh)];
      PushChain(old(hhNext), hhNext, old(hhPrev), hhPrev, hashv, 2 * n, nb0, nc0, thh, newbkt.expandMult);
      ExcessUpdate(nb0, bkt, nb[bkt], ideal);
      nc := nc0[bkt := [thh] + nc0[bkt]];
    }

    /** The inner loop of HASH_EXPAND_BUCKETS: moves the items of one old bucket. */
    method MoveChain(first: nat, n: nat, ideal: nat, nb0: seq<Bucket>, ghost i: nat, ghost nc0: seq<seq<nat>>,
                     ghost r0: seq<nat>)
      returns (nb: seq<Bucket>, ghost nc: seq<seq<nat>>)
      requires n > 0 && ideal > 0 && ChainsOk(hhNext, hhPrev, hashv, 2 * n, nb0, nc0)
      requires Moved(hashv, n, nc0, items, i, r0)
      requires Linked(hhNext, r0, 0) && NoDup(r0) && first == First(r0)
      requires forall x | x in r0 :: x in items && ToBkt(hashv[x], n) == i
      requires MultsOk(nb0, ideal) && nonidealItems == Excess(nb0, ideal)
      modifies this`hhNext, this`hhPrev, this`nonidealItems
      ensures ChainsOk(hhNext, hhPrev, hashv, 2 * n, nb, nc) && Moved(hashv, n, nc, items, i, [])
      ensures MultsOk(nb, ideal) && nonidealItems == Excess(nb, ideal)
      ensures forall s | NoCommon(s, r0) && Linked(old(hhNext), s, 0) :: Linked(hhNext, s, 0)
    {
      hide Linked, NoDup, ChainsOk, Excess, Moved;
      var thh := first;
      nb, nc := nb0, nc0;
      ghost var r := r0;
      NoDupNonzero(r0);
      FirstZero(r, 0);
      KeepsAll(hhNext, r0);
      while thh != 0
        invariant ChainsOk(hhNext, hhPrev, hashv, 2 * n, nb, nc) && Moved(hashv, n, nc, items, i, r)
        invariant Linked(hhNext, r, 0) && NoDup(r) && thh == First(r) && (thh == 0 <==> r == [])
        invariant forall x | x in r :: x in r0
        invariant MultsOk(nb, ideal) && nonidealItems == Excess(nb, ideal)
        invariant KeepsOthers(old(hhNext), hhNext, r0)
        decreases |r|
      {
        ChainsLength(hhNext, hhPrev, hashv, 2 * n, nb, nc);
        LinkedTail(hhNext, r, 0);
        NoDupHead(r);
        MovedFacts(hashv, n, nc, items, i, r, thh);
        MoveOne(hashv, n, nc, items, i, r);
        var nxt := hhNext[thh];
        ghost var n0 := hhNext;
        nb, nc := MoveItem(thh, n, ideal, nb, nc);
        OthersKept(n0, hhNext, r[1..], thh);
        r := r[1..];
        thh := nxt;
        NoDupNonzero(r);
        FirstZero(r, 0);
      }
      OthersLinked(old(hhNext), hhNext, r0);
    }

    /** HASH_EXPAND_BUCKETS. */
    method Expand()
      requires ListValid() && BucketsValid() && numItems > 0
      modifies this`hhNext, this`hhPrev, this`buckets, this`numBuckets, this`log2NumBuckets, this`idealChainMaxlen
      modifies this`nonidealItems, this`ineffExpands, this`noexpand, this`chains, this`expansions
      ensures expansions == old(expansions) + [nonidealItems > numItems / 2]
      ensures BucketsValid() && numBuckets == 2 * old(numBuckets)
      ensures idealChainMaxlen == IdealMax(numItems, numBuckets) && idealChainMaxlen > 0
      ensures nonidealItems == Excess(buckets, idealChainMaxlen) && MultsOk(buckets, idealChainMaxlen)
      ensures ineffExpands == if nonidealItems > numItems / 2 then old(ineffExpands) + 1 else 0
      ensures noexpand == (old(noexpand) || ineffExpands > 1)
    {
      hide Linked, Back, NoDup, IsList, ChainsOk, Spread, Excess, Moved, MultsOk, IdealMax, Pow2, Last, First;
      var n := numBuckets;
      ShiftIs(numItems, n, log2NumBuckets);
      idealChainMaxlen := numItems / Pow2(log2NumBuckets + 1) + if numItems % (2 * n) != 0 then 1 else 0;
      var nb;
      ghost var nc;
      nb, nc := Redistribute();
      Install(nb, nc);
    }

    /** The end of HASH_EXPAND_BUCKETS: the new bucket array, and whether the expansion was of any use. */
    method Install(nb: seq<Bucket>, ghost nc: seq<seq<nat>>)
      modifies this`buckets, this`numBuckets, this`log2NumBuckets, this`ineffExpands, this`noexpand, this`chains
      modifies this`expansions
      ensures expansions == old(expansions) + [nonidealItems > numItems / 2]
      ensures buckets == nb && chains == nc && numBuckets == 2 * old(numBuckets)
      ensures log2NumBuckets == old(log2NumBuckets) + 1
      ensures ineffExpands == if nonidealItems > numItems / 2 then old(ineffExpands) + 1 else 0
      ensures noexpand == (old(noexpand) || ineffExpands > 1)
    {
      numBuckets := numBuckets * 2;
      log2NumBuckets := log2NumBuckets + 1;
      buckets := nb;
      chains := nc;
      expansions := expansions + [nonidealItems > numItems / 2];
      ineffExpands := if nonidealItems > numItems / 2 then ineffExpands + 1 else 0;
      if ineffExpands > 1 {
        noexpand := true;
      }
    }

    /** The loop of HASH_EXPAND_BUCKETS over the old buckets. */
    method Redistribute() returns (nb: seq<Bucket>, ghost nc: seq<seq<nat>>)
      requires BucketsValid() && idealChainMaxlen > 0
      modifies this`hhNext, this`hhPrev, this`nonidealItems
      ensures ChainsOk(hhNext, hhPrev, hashv, 2 * numBuckets, nb, nc)
      ensures Spread(hashv, 2 * numBuckets, nc, items)
      ensures nonidealItems == Excess(nb, idealChainMaxlen) && MultsOk(nb, idealChainMaxlen)
    {
      hide Linked, NoDup, ChainsOk, Excess, Moved, MultsOk;
      var n := numBuckets;
      ChainsLength(hhNext, hhPrev, hashv, n, buckets, chains);
      nb := seq(2 * n, _ => Bucket(0, 0, 0));
      nc := seq(2 * n, _ => []);
      nonidealItems := 0;
      NewBuckets(hhNext, hhPrev, hashv, n, nb, nc, items, idealChainMaxlen, chains);
      OldChains(hhNext, hhPrev, hashv, n, buckets, chains);
      for i := 0 to n
        invariant ChainsOk(hhNext, hhPrev, hashv, 2 * n, nb, nc)
        invariant Moved(hashv, n, nc, items, i, if i < n then chains[i] else [])
        invariant MultsOk(nb, idealChainMaxlen) && nonidealItems == Excess(nb, idealChainMaxlen)
        invariant forall j | i <= j < n :: Linked(hhNext, chains[j], 0)
      {
        OldChain(old(hhNext), old(hhPrev), hashv, n, buckets, chains, i);
        OldItems(hashv, chains, items, n, i);
        nb, nc := MoveChain(buckets[i].hhHead, n, idealChainMaxlen, nb, i, nc, chains[i]);
        NextBucket(old(hhNext), old(hhPrev), hashv, n, buckets, chains, nc, items, i);
      }
      AllMoved(hashv, n, nc, items);
    }

    // ---------------------------------------------------------------- adding, deleting, finding

    /** HASH_ADD_KEYPTR of an item whose key hashes to `h`. */
    method Add(x: nat, h: nat)
      requires Valid() && x != 0 && x !in items
      modifies this
      ensures Valid() && items == old(items) + [x]
      ensures hashv == old(hashv)[x := h]
      ensures head != 0 && Pushed(if old(head) == 0 then Fresh else old(Numbers()), h, |items|, Numbers())
    {
      hide Linked, Back, NoDup, IsList, ChainsOk, OnChain, Pow2, ShapeInv, Pushed, Numbers, Spread, Fresh, First, Last;
      AppendItem(x);
      ghost var before := Numbers();
      HashFrame(hhNext, hhPrev, hashv, numBuckets, buckets, chains, items[..|items| - 1], x, h);
      numItems := numItems + 1;
      hashv := hashv[x := h];
      AddToBkt(x);
      PushedIsSound(before, h, |items|, Numbers());
      NoDupNonzero(items);
      FirstZero(items, 0);
    }

    /** The first half of HASH_ADD_KEYPTR: the insertion-order list, and a table if there is none. */
    method AppendItem(x: nat)
      requires Valid() && x != 0 && x !in items
      modifies this`head, this`next, this`prev, this`items, this`tail, this`numBuckets, this`log2NumBuckets,
        this`buckets
      modifies this`numItems, this`chains, this`idealChainMaxlen, this`nonidealItems, this`ineffExpands, this`noexpand
      modifies this`expansions
      ensures ListValid() && items == old(items) + [x] && items[..|items| - 1] == old(items) && next.Keys == prev.Keys
      ensures head == First(items)
      ensures ChainsOk(hhNext, hhPrev, hashv, numBuckets, buckets, chains)
      ensures forall y | y in old(items) :: OnChain(hashv, numBuckets, chains, y)
      ensures forall b, y | 0 <= b < numBuckets && y in chains[b] :: y in old(items)
      ensures numItems == |old(items)| && numBuckets == Pow2(log2NumBuckets)
      ensures ShapeInv(Numbers()) && Numbers() == if old(head) == 0 then Fresh else old(Numbers())
    {
      hide Linked, Back, NoDup, ChainsOk, OnChain, Pow2, ShapeInv, Numbers;
      NoDupNonzero(items);
      FirstZero(items, 0);
      if head == 0 {
        LinkItem(x);
        MakeTable(x);
        FreshIsSound();
      } else {
        LinkItem(x);
        tail := x;
      }
    }

    /** The item comes after the last one; the tail still has to follow. */
    method LinkItem(x: nat)
      requires ListValid() && x != 0 && x !in items && next.Keys == prev.Keys
      modifies this`head, this`next, this`prev, this`items
      ensures IsList(next, prev, head, items) && NoDup(items) && Last(items) == x && next.Keys == prev.Keys
      ensures items == old(items) + [x] && items[..|items| - 1] == old(items)
    {
      hide Linked, Back, NoDup;
      NoDupNonzero(items);
      FirstZero(items, 0);
      LastIn(items);
      TailIn(next, prev, head, items);
      next := next[x := 0];
      if head == 0 {
        head := x;
        prev := prev[x := 0];
      } else {
        next := next[tail := x];
        prev := prev[x := tail];
      }
      PutLast(old(next), next, old(prev), prev, old(head), items, x);
      items := items + [x];
    }

    /** HASH_MAKE_TABLE. */
    method MakeTable(x: nat)
      modifies this`tail, this`numBuckets, this`log2NumBuckets, this`buckets, this`numItems, this`chains
      modifies this`idealChainMaxlen, this`nonidealItems, this`ineffExpands, this`noexpand, this`expansions
      ensures Numbers() == Fresh
      ensures tail == x && numItems == 0 && numBuckets == 32 == Pow2(log2NumBuckets)
      ensures ChainsOk(hhNext, hhPrev, hashv, numBuckets, buckets, chains)
      ensures forall b | 0 <= b < numBuckets :: chains[b] == []
    {
      hide ChainsOk, Counts, Mults, Pow2, Fresh;
      tail := x;
      numItems, idealChainMaxlen, nonidealItems, ineffExpands, noexpand := 0, 0, 0, 0, false;
      expansions := [];
      MakeBuckets();
      FreshBuckets(buckets);
      FreshChains(hhNext, hhPrev, hashv, buckets, chains);
    }

    /** The bucket array of a new table. */
    method MakeBuckets()
      modifies this`numBuckets, this`log2NumBuckets, this`buckets, this`chains
      ensures numBuckets == 32 == Pow2(log2NumBuckets) && |buckets| == |chains| == 32
      ensures forall b | 0 <= b < 32 :: buckets[b] == Bucket(0, 0, 0) && chains[b] == []
    {
      numBuckets := 32;
      log2NumBuckets := 5;
      buckets := seq(32, _ => Bucket(0, 0, 0));
      chains := seq(32, _ => []);
      ThirtyTwo();
    }

    /** The first statements of HASH_ADD_TO_BKT: the item comes to the front of its chain. */
    method PushInBkt(x: nat) returns (b: nat)
      requires ChainsOk(hhNext, hhPrev, hashv, numBuckets, buckets, chains)
      requires x != 0 && x in items && x in hashv && (forall b | 0 <= b < numBuckets :: x !in chains[b])
      requires forall y | y in items && y != x :: OnChain(hashv, numBuckets, chains, y)
      requires forall b, y | 0 <= b < numBuckets && y in chains[b] :: y in items
      requires numItems == |items| && numBuckets == Pow2(log2NumBuckets)
      modifies this`hhNext, this`hhPrev, this`buckets, this`chains
      ensures BucketsValid() && numBuckets > 0 && b == ToBkt(hashv[x], numBuckets) < |old(buckets)| == |old(chains)|
      ensures buckets == old(buckets)[b := Bucket(x, old(buckets)[b].count + 1, old(buckets)[b].expandMult)]
      ensures chains == old(chains)[b := [x] + old(chains)[b]]
    {
      hide Linked, Back, NoDup, IsList, ChainsOk, OnChain, Pow2;
      ChainsLength(hhNext, hhPrev, hashv, numBuckets, buckets, chains);
      b := ToBkt(hashv[x], numBuckets);
      var count := buckets[b].count + 1;
      var first := buckets[b].hhHead;
      hhNext := hhNext[x := first];
      hhPrev := hhPrev[x := 0];
      if first != 0 {
        hhPrev := hhPrev[first := x];
      }
      buckets := buckets[b := Bucket(x, count, buckets[b].expandMult)];
      PushChain(old(hhNext), hhNext, old(hhPrev), hhPrev, hashv, numBuckets, old(buckets), chains, x,
        buckets[b].expandMult);
      PushMembers(hashv, numBuckets, chains, items, x);
      chains := chains[b := [x] + chains[b]];
    }

    /** HASH_ADD_TO_BKT: the expansion is part of it. */
    method AddToBkt(x: nat)
      requires ListValid() && ChainsOk(hhNext, hhPrev, hashv, numBuckets, buckets, chains)
      requires x != 0 && x in items && x in hashv && (forall b | 0 <= b < numBuckets :: x !in chains[b])
      requires forall y | y in items && y != x :: OnChain(hashv, numBuckets, chains, y)
      requires forall b, y | 0 <= b < numBuckets && y in chains[b] :: y in items
      requires numItems == |items| && numBuckets == Pow2(log2NumBuckets) && ShapeInv(Numbers())
      modifies this`hhNext, this`hhPrev, this`buckets, this`numBuckets, this`log2NumBuckets, this`idealChainMaxlen
      modifies this`nonidealItems, this`ineffExpands, this`noexpand, this`chains, this`expansions
      ensures BucketsValid() && |old(buckets)| > 0 && Pushed(old(Numbers()), hashv[x], numItems, Numbers())
      ensures var b := hashv[x] % |old(buckets)|;
              !Overfull(old(Numbers()), b) ==>
                numBuckets == old(numBuckets) && |old(chains)| > b && chains == old(chains)[b := [x] + old(chains)[b]]
    {
      hide Linked, Back, NoDup, IsList, ChainsOk, OnChain, Spread, Pow2, Excess, MultsOk, IdealMax, Pushed,
        Counts, Mults;
      ChainsLength(hhNext, hhPrev, hashv, numBuckets, buckets, chains);
      BucketShape(buckets, ToBkt(hashv[x], numBuckets));
      InBounds(Numbers());
      var b := PushInBkt(x);
      CountShape(old(buckets), b, buckets[b]);
      if buckets[b].count >= (buckets[b].expandMult + 1) * 10 && !noexpand {
        SomeItems(items, x);
        Expand();
        ChainsLength(hhNext, hhPrev, hashv, numBuckets, buckets, chains);
        ExpandedShape(old(Numbers()), hashv[x], numItems, buckets, Numbers());
      } else {
        PlainPush(old(Numbers()), hashv[x], numItems, Numbers());
      }
    }

    /** An item between those before and those after it. */
    lemma ItemParts(x: nat) returns (s: seq<nat>, t: seq<nat>)
      requires ListValid() && x in items
      ensures items == s + [x] + t && Without(items, x) == s + t && head != 0
      ensures x in next && x in prev && (prev[x] == 0 <==> s == []) && (next[x] == 0 <==> t == [])
      ensures SameWithout(s + t, items, x) && |s + t| + 1 == |items|
      ensures |s + t| > 0 ==> First(s + t) != 0
    {
      hide Linked, Back, NoDup;
      var r := Around(items, x);
      s, t := r.0, r.1;
      WithoutAt(s, x, t);
      PartsNonzero(items, s, x, t);
      NoDupNonzero(items);
      FirstZero(items, 0);
      ItemLinks(next, prev, head, items, s, x, t);
    }

    /** HASH_DELETE; with the last item the table goes. */
    method Delete(x: nat)
      requires Valid() && x in items
      modifies this
      ensures Valid() && items == Without(old(items), x) && hashv == old(hashv)
      ensures old(head) != 0 && (|old(items)| == 1 ==> head == 0)
      ensures |old(items)| != 1 ==> head != 0 && |old(Numbers()).counts| > 0 && x in hashv
                                    && Pulled(old(Numbers()), hashv[x], Numbers())
    {
      hide Linked, Back, NoDup, IsList, ChainsOk, Spread, Pow2, Pulled, ShapeInv, Numbers;
      ghost var s, t := ItemParts(x);
      if prev[x] == 0 && next[x] == 0 {
        head, tail, numItems := 0, 0, 0;
        items := [];
        EmptyList(next, prev);
      } else {
        DeleteOne(x, s, t);
      }
    }

    /** HASH_DELETE of an item that is not the only one. */
    method DeleteOne(x: nat, ghost s: seq<nat>, ghost t: seq<nat>)
      requires Valid() && head != 0 && items == s + [x] + t && x in items && First(s + t) != 0
      requires SameWithout(s + t, items, x) && |s + t| + 1 == |items|
      modifies this
      ensures Valid() && head != 0 && items == s + t && hashv == old(hashv)
      ensures |old(Numbers()).counts| > 0 && x in hashv && Pulled(old(Numbers()), hashv[x], Numbers())
    {
      hide Linked, Back, NoDup, IsList, ChainsOk, Spread, Pow2, Pulled, ShapeInv, Numbers, SameWithout, First, Last;
      UnlinkItem(x, s, t);
      DelInBkt(x);
      PulledIsSound(old(Numbers()), hashv[x], Numbers());
      numItems := numItems - 1;
      items := s + t;
    }

    /** The insertion-order part of HASH_DELETE. */
    method UnlinkItem(x: nat, ghost s: seq<nat>, ghost t: seq<nat>)
      requires ListValid() && next.Keys == prev.Keys && items == s + [x] + t
      modifies this`next, this`prev, this`head, this`tail
      ensures IsList(next, prev, head, s + t) && NoDup(s + t) && tail == Last(s + t) && next.Keys == prev.Keys
      ensures head == First(s + t)
    {
      hide Linked, Back, NoDup;
      ghost var n1 := if s != [] then next[Last(s) := First(t)] else next;
      ghost var v1 := if t != [] then prev[t[0] := Last(s)] else prev;
      TakeOut(next, n1, prev, v1, head, s, x, t);
      PartsNonzero(items, s, x, t);
      if x == tail {
        tail := prev[x];
      }
      var before, after := prev[x], next[x];
      if before != 0 {
        next := next[before := after];
      } else {
        head := after;
      }
      if after != 0 {
        prev := prev[after := before];
      }
      KeysKept(old(next), next, old(prev), prev, s, x, t);
    }

    /** HASH_DEL_IN_BKT. */
    method DelInBkt(x: nat)
      requires BucketsValid() && x in items && NoDup(items)
      modifies this`hhNext, this`hhPrev, this`buckets, this`chains
      ensures ChainsOk(hhNext, hhPrev, hashv, numBuckets, buckets, chains)
      ensures forall s | SameWithout(s, items, x) :: Spread(hashv, numBuckets, chains, s)
      ensures |old(Numbers()).counts| > 0 && x in hashv && Pulled(old(Numbers()), hashv[x], Numbers())
    {
      hide Linked, Back, NoDup, IsList, ChainsOk, Pow2, Counts, Mults;
      ChainsLength(hhNext, hhPrev, hashv, numBuckets, buckets, chains);
      assert OnChain(hashv, numBuckets, chains, x);
      var b := ToBkt(hashv[x], numBuckets);
      ghost var r := Around(chains[b], x);
      ghost var s, t := r.0, r.1;
      ghost var n1 := if s != [] then hhNext[Last(s) := First(t)] else hhNext;
      ghost var v1 := if t != [] then hhPrev[t[0] := Last(s)] else hhPrev;
      PullChain(hhNext, n1, hhPrev, v1, hashv, numBuckets, buckets, chains, s, x, t);
      ChainParts(hhNext, hhPrev, hashv, numBuckets, buckets, chains, b, s, x, t);
      buckets := buckets[b := buckets[b].(count := buckets[b].count - 1)];
      if buckets[b].hhHead == x {
        buckets := buckets[b := buckets[b].(hhHead := hhNext[x])];
      }
      if hhPrev[x] != 0 {
        hhNext := hhNext[hhPrev[x] := hhNext[x]];
      }
      if hhNext[x] != 0 {
        hhPrev := hhPrev[hhNext[x] := hhPrev[x]];
      }
      assert s == [] ==> s + [x] == [x];
      assert hhNext == n1 && hhPrev == v1;
      assert buckets == old(buckets)[b := old(buckets)[b].(hhHead := First(s + t), count := old(buckets)[b].count - 1)];
      PullMembers(hashv, numBuckets, chains, items, s, x, t);
      BucketShape(old(buckets), b);
      CountShape(old(buckets), b, buckets[b]);
      chains := chains[b := s + t];
    }

    /** HASH_FIND and HASH_FIND_IN_BKT: an item with the key, if the key of every item hashes as it was added. */
    method Find<K(==)>(keyOf: nat -> K, k: K, h: nat) returns (found: nat)
      requires Valid() && forall x | x in items && keyOf(x) == k :: x in hashv && hashv[x] == h
      ensures found != 0 ==> found in items && keyOf(found) == k
      ensures found == 0 ==> forall x | x in items :: keyOf(x) != k
    {
      hide Linked, Back, NoDup, ChainsOk;
      found := 0;
      if head != 0 {
        ChainsLength(hhNext, hhPrev, hashv, numBuckets, buckets, chains);
        var b := ToBkt(h, numBuckets);
        OldChain(hhNext, hhPrev, hashv, numBuckets, buckets, chains, b);
        NoDupNonzero(chains[b]);
        FirstZero(chains[b], 0);
        found := buckets[b].hhHead;
        ghost var r := chains[b];
        while found != 0
          invariant found == First(r) && (found == 0 <==> r == []) && Linked(hhNext, r, 0)
          invariant forall x | x in r :: x in chains[b]
          invariant forall x | x in chains[b] :: x in r || keyOf(x) != k
          decreases |r|
        {
          assert found in r;
          if keyOf(found) == k {
            return;
          }
          LinkedTail(hhNext, r, 0);
          assert r == [found] + r[1..];
          assert forall x | x in r[1..] :: x in r;
          found := hhNext[found];
          r := r[1..];
          FirstZero(r, 0);
        }
        forall x | x in items ensures keyOf(x) != k {
          assert OnChain(hashv, numBuckets, chains, x);
        }
      } else {
        NoDupNonzero(items);
        FirstZero(items, 0);
      }
    }
  }

  lemma FreshChains(next: Links, prev: Links, hashv: Hashes, buckets: seq<Bucket>, chains: seq<seq<nat>>)
    requires |buckets| == |chains| == 32 && forall b | 0 <= b < 32 :: buckets[b] == Bucket(0, 0, 0) && chains[b] == []
    ensures ChainsOk(next, prev, hashv, 32, buckets, chains)
  {
  }

  lemma SomeItems(items: seq<nat>, x: nat)
    requires x in items
    ensures |items| > 0
  {
  }

  lemma BackHead(prev: Links, s: seq<nat>, before: nat)
    requires Back(prev, s, before) && s != []
    ensures s[0] in prev && prev[s[0]] == before
  {
  }

  lemma ChainLinks(next: Links, prev: Links, hashv: Hashes, n: nat, buckets: seq<Bucket>, chains: seq<seq<nat>>, b: nat)
    requires ChainsOk(next, prev, hashv, n, buckets, chains) && b < n
    ensures Back(prev, chains[b], 0) && buckets[b].count == |chains[b]| && chains[b][0..] == chains[b]
  {
  }

  /** Which chain an item is on does not depend on the order of the items. */
  lemma SpreadPermuted(hashv: Hashes, n: nat, chains: seq<seq<nat>>, s: seq<nat>, t: seq<nat>)
    requires multiset(s) == multiset(t)
    ensures Spread(hashv, n, chains, s) ==> Spread(hashv, n, chains, t)
    ensures |s| == |t|
  {
    assert |multiset(s)| == |multiset(t)|;
    assert forall x :: x in s <==> x in multiset(s);
    assert forall x :: x in t <==> x in multiset(t);
  }

  lemma ThirtyTwo()
    ensures Pow2(5) == 32
  {
  }

  lemma TailIn(next: Links, prev: Links, first: nat, s: seq<nat>)
    requires IsList(next, prev, first, s)
    ensures s != [] ==> Last(s) in next
  {
    LinkedIsOpen(next, s, 0);
  }

  /** A new hash value of an item on no chain. */
  lemma HashFrame(next: Links, prev: Links, hashv: Hashes, n: nat, buckets: seq<Bucket>, chains: seq<seq<nat>>,
                  items: seq<nat>, x: nat, h: nat)
    requires ChainsOk(next, prev, hashv, n, buckets, chains) && x !in items
    requires forall b, y | 0 <= b < n && y in chains[b] :: y in items
    ensures ChainsOk(next, prev, hashv[x := h], n, buckets, chains)
    ensures forall b | 0 <= b < n :: x !in chains[b]
    ensures forall y | y in items && OnChain(hashv, n, chains, y) :: OnChain(hashv[x := h], n, chains, y)
  {
  }

  lemma PushMembers(hashv: Hashes, n: nat, chains: seq<seq<nat>>, items: seq<nat>, x: nat)
    requires n > 0 && |chains| == n && x in items && x in hashv
    requires forall y | y in items && y != x :: OnChain(hashv, n, chains, y)
    requires forall b, y | 0 <= b < n && y in chains[b] :: y in items
    ensures var b := ToBkt(hashv[x], n);
            var chains' := chains[b := [x] + chains[b]];
            Spread(hashv, n, chains', items)
  {
  }

  ghost predicate SameWithout(s: seq<nat>, items: seq<nat>, x: nat) {
    forall y :: y in s <==> y in items && y != x
  }

  lemma PullMembers(hashv: Hashes, n: nat, chains: seq<seq<nat>>, items: seq<nat>, s: seq<nat>, x: nat, t: seq<nat>)
    requires n > 0 && |chains| == n && x in hashv && chains[ToBkt(hashv[x], n)] == s + [x] + t && x !in s && x !in t
    requires forall y | y in items :: OnChain(hashv, n, chains, y)
    requires forall b, y | 0 <= b < n && y in chains[b] :: y in items && y in hashv && ToBkt(hashv[y], n) == b
    ensures var b := ToBkt(hashv[x], n);
            var chains' := chains[b := s + t];
            forall r | SameWithout(r, items, x) :: Spread(hashv, n, chains', r)
  {
    var b := ToBkt(hashv[x], n);
    assert forall y :: y in s + [x] + t <==> y in s + t || y == x;
  }

  lemma PartsNonzero(items: seq<nat>, s: seq<nat>, x: nat, t: seq<nat>)
    requires items == s + [x] + t && NoDup(items)
    ensures (Last(s) == 0 <==> s == []) && (First(t) == 0 <==> t == []) && x != 0
    ensures (x == Last(items) <==> t == []) && Last(s + t) == (if t == [] then Last(s) else Last(items))
    ensures forall y | y in s + t :: y in items && y != x
    ensures forall y | y in items && y != x :: y in s + t
    ensures |s + t| + 1 == |items| && First(items) == (if s == [] then x else First(s))
  {
    hide NoDup, First, Last;
    NoDupAround(s, x, t);
    NoDupNonzero(s);
    NoDupNonzero(t);
    PartMembers(s, x, t);
    PartEnds(s, x, t);
  }

  lemma PartMembers(s: seq<nat>, x: nat, t: seq<nat>)
    requires forall y | y in s :: y !in [x] + t
    ensures forall y :: y in s + [x] + t <==> y in s || y == x || y in t
    ensures forall y :: y in s + t <==> y in s || y in t
    ensures x !in s && x in [x] + t && forall y | y in t :: y in [x] + t
  {
    assert ([x] + t)[0] == x;
  }

  lemma PartEnds(s: seq<nat>, x: nat, t: seq<nat>)
    requires (forall y | y in s :: y != 0) && (forall y | y in t :: y != 0) && x !in t
    ensures (Last(s) == 0 <==> s == []) && (First(t) == 0 <==> t == [])
    ensures (x == Last(s + [x] + t) <==> t == [])
    ensures Last(s + t) == (if t == [] then Last(s) else Last(s + [x] + t))
    ensures First(s + [x] + t) == (if s == [] then x else First(s))
  {
    LastIn(s);
    if t == [] {
      assert s + t == s && s + [x] + t == s + [x];
    } else {
      assert t[0] in t && Last(t) in t;
      assert Last(s + t) == Last(t) == Last(s + [x] + t);
    }
  }

  lemma ItemLinks(next: Links, prev: Links, first: nat, items: seq<nat>, s: seq<nat>, x: nat, t: seq<nat>)
    requires IsList(next, prev, first, items) && NoDup(items) && items == s + [x] + t
    ensures x in next && x in prev && next[x] == First(t) && prev[x] == Last(s) && first == First(items)
  {
    hide Linked, Back, NoDup;
    TakeOut(next, if s != [] then next[Last(s) := First(t)] else next,
            prev, if t != [] then prev[t[0] := Last(s)] else prev, first, s, x, t);
  }

  lemma EmptyList(next: Links, prev: Links)
    ensures IsList(next, prev, 0, []) && NoDup([])
  {
  }

  lemma KeysKept(next: Links, next': Links, prev: Links, prev': Links, s: seq<nat>, x: nat, t: seq<nat>)
    requires next.Keys == prev.Keys && IsList(next, prev, First(s + [x] + t), s + [x] + t)
    requires next' == if s != [] then next[Last(s) := First(t)] else next
    requires prev' == if t != [] then prev[t[0] := Last(s)] else prev
    ensures next'.Keys == prev'.Keys
  {
    LinkedIsOpen(next, s + [x] + t, 0);
    OpenIn(next, s + [x] + t);
    LastIn(s);
    assert s != [] ==> Last(s) in s + [x] + t;
    assert t != [] ==> t[0] in s + [x] + t by { assert t != [] ==> (s + [x] + t)[|s| + 1] == t[0]; }
  }

  lemma ChainParts(next: Links, prev: Links, hashv: Hashes, n: nat, buckets: seq<Bucket>, chains: seq<seq<nat>>,
                   b: nat, s: seq<nat>, x: nat, t: seq<nat>)
    requires ChainsOk(next, prev, hashv, n, buckets, chains) && b < n && chains[b] == s + [x] + t
    ensures x !in s && x !in t && (Last(s) == 0 <==> s == []) && (First(t) == 0 <==> t == [])
    ensures First(s + t) == (if s == [] then First(t) else First(s + [x]))
    ensures s != [] ==> First(s + [x]) != x && Last(s) != x
    ensures forall c, y | 0 <= c < n && y in chains[c] :: y in hashv && ToBkt(hashv[y], n) == c
  {
    hide IsList;
    assert ChainOk(next, prev, hashv, n, b, buckets[b], chains[b]);
    PartsNonzero(chains[b], s, x, t);
    assert s + [x] + t == s + ([x] + t);
    NoDupAppend(s, [x] + t);
    NoDupAppend([x], t);
    forall c, y | 0 <= c < n && y in chains[c] ensures y in hashv && ToBkt(hashv[y], n) == c {
      assert ChainOk(next, prev, hashv, n, c, buckets[c], chains[c]);
    }
  }

  lemma OldChains(next: Links, prev: Links, hashv: Hashes, n: nat, buckets: seq<Bucket>, chains: seq<seq<nat>>)
    requires ChainsOk(next, prev, hashv, n, buckets, chains)
    ensures forall j | 0 <= j < n :: Linked(next, chains[j], 0)
  {
  }

  lemma OldItems(hashv: Hashes, chains: seq<seq<nat>>, items: seq<nat>, n: nat, i: nat)
    requires |chains| == n && i < n && Spread(hashv, n, chains, items)
    ensures forall x | x in chains[i] :: x in items
  {
  }

  ghost predicate NoCommon(s: seq<nat>, r: seq<nat>) {
    forall x | x in s :: x !in r
  }

  /** The links of elements outside `r` are as they were. */
  ghost predicate KeepsOthers(m: Links, m': Links, r: seq<nat>) {
    forall x | x in m && x !in r :: x in m' && m'[x] == m[x]
  }

  lemma KeepsAll(m: Links, r: seq<nat>)
    ensures KeepsOthers(m, m, r)
  {
  }

  ghost predicate OneLink(m: Links, m': Links, x: nat) {
    forall k | k in m && k != x :: k in m' && m'[k] == m[k]
  }

  lemma OthersKept(m: Links, m': Links, r: seq<nat>, x: nat)
    requires OneLink(m, m', x) && x !in r && Linked(m, r, 0)
    ensures Linked(m', r, 0)
  {
  }

  lemma OthersLinked(m: Links, m': Links, r: seq<nat>)
    requires KeepsOthers(m, m', r)
    ensures forall s | NoCommon(s, r) && Linked(m, s, 0) :: Linked(m', s, 0)
  {
    forall s | NoCommon(s, r) && Linked(m, s, 0) ensures Linked(m', s, 0) { LinkedFrame(m, m', s, 0); }
  }

  lemma MovedFacts(hashv: Hashes, n: nat, nc: seq<seq<nat>>, items: seq<nat>, i: nat, r: seq<nat>, x: nat)
    requires Moved(hashv, n, nc, items, i, r) && x in items
    ensures x in hashv
  {
  }

  lemma ChainsLength(next: Links, prev: Links, hashv: Hashes, n: nat, buckets: seq<Bucket>, chains: seq<seq<nat>>)
    requires ChainsOk(next, prev, hashv, n, buckets, chains)
    ensures n > 0 && |buckets| == |chains| == n
  {
  }

  /** The new bucket array before any item is moved. */
  lemma NewBuckets(next: Links, prev: Links, hashv: Hashes, n: nat, nb: seq<Bucket>, nc: seq<seq<nat>>,
                   items: seq<nat>, ideal: nat, chains: seq<seq<nat>>)
    requires n > 0 && |nb| == |nc| == 2 * n && ideal > 0 && |chains| == n
    requires forall b | 0 <= b < 2 * n :: nb[b] == Bucket(0, 0, 0) && nc[b] == []
    requires Spread(hashv, n, chains, items)
    ensures ChainsOk(next, prev, hashv, 2 * n, nb, nc) && Moved(hashv, n, nc, items, 0, chains[0])
    ensures MultsOk(nb, ideal) && Excess(nb, ideal) == 0
  {
    ExcessEmpty(nb, ideal);
  }

  lemma OldChain(next: Links, prev: Links, hashv: Hashes, n: nat, buckets: seq<Bucket>, chains: seq<seq<nat>>, i: nat)
    requires ChainsOk(next, prev, hashv, n, buckets, chains) && i < n
    ensures NoDup(chains[i]) && buckets[i].hhHead == First(chains[i]) && Linked(next, chains[i], 0)
    ensures forall x | x in chains[i] :: x in hashv && ToBkt(hashv[x], n) == i
    ensures forall j | 0 <= j < n && j != i :: NoCommon(chains[j], chains[i])
  {
  }

  lemma NextBucket(next: Links, prev: Links, hashv: Hashes, n: nat, buckets: seq<Bucket>, chains: seq<seq<nat>>,
                   nc: seq<seq<nat>>, items: seq<nat>, i: nat)
    requires ChainsOk(next, prev, hashv, n, buckets, chains) && i < n && Moved(hashv, n, nc, items, i, [])
    requires Spread(hashv, n, chains, items)
    ensures Moved(hashv, n, nc, items, i + 1, if i + 1 < n then chains[i + 1] else [])
  {
  }

  lemma AllMoved(hashv: Hashes, n: nat, nc: seq<seq<nat>>, items: seq<nat>)
    requires Moved(hashv, n, nc, items, n, [])
    ensures Spread(hashv, 2 * n, nc, items)
  {
  }

  lemma MergingFacts(next: Links, prev: Links, list: nat, tail: nat, p: nat, q: nat, o: seq<nat>, ps: seq<nat>,
                     qs: seq<nat>)
    requires Merging(next, prev, list, tail, p, q, o, ps, qs)
    ensures q == 0 <==> qs == []
    ensures q != 0 ==> q == qs[0] && q in next
    ensures ps != [] ==> p == ps[0] && p in next
    ensures tail != 0 ==> tail in next
  {
    NoDupAppend(o + ps, qs);
    NoDupNonzero(qs);
    OpenIn(next, o);
    LastIn(o);
  }

  lemma MergingRest(next: Links, prev: Links, list: nat, tail: nat, p: nat, q: nat, o: seq<nat>, ps: seq<nat>,
                    qs: seq<nat>)
    requires Merging(next, prev, list, tail, p, q, o, ps, qs)
    ensures Linked(next, qs, 0) && NoDup(qs) && q == First(qs)
  {
    NoDupAppend(o + ps, qs);
  }

  lemma MergingNoP(next: Links, prev: Links, list: nat, tail: nat, p: nat, q: nat, o: seq<nat>, ps: seq<nat>,
                   qs: seq<nat>)
    requires Merging(next, prev, list, tail, p, q, o, ps, qs) && ps == []
    ensures Merging(next, prev, list, tail, 0, q, o, [], qs)
  {
  }

  lemma MergingStart(next: Links, prev: Links, first: nat, s: seq<nat>)
    requires Linked(next, s, 0) && NoDup(s) && first == First(s) && next.Keys == prev.Keys
    ensures Merging(next, prev, 0, 0, 0, first, [], [], s)
  {
    assert [] + [] + s == s;
    LinkedIsOpen(next, s, 0);
    OpenIn(next, s);
  }

  lemma MergingSplit(next: Links, prev: Links, list: nat, tail: nat, p: nat, q: nat, o: seq<nat>, r: seq<nat>, i: nat)
    requires Merging(next, prev, list, tail, 0, p, o, [], r) && 0 < i <= |r| && q == First(r[i..])
    ensures Merging(next, prev, list, tail, p, q, o, r[..i], r[i..])
  {
    hide Linked, Back, Open, NoDup;
    assert r == r[..i] + r[i..];
    assert o + [] + r == o + r[..i] + r[i..];
    LinkedSplit(next, r[..i], r[i..], 0);
    LinkedIsOpen(next, r[..i], if r[i..] == [] then 0 else r[i..][0]);
  }

  lemma MergingEnd(next: Links, next': Links, prev: Links, list: nat, last: nat, o: seq<nat>)
    requires Merging(next, prev, list, last, 0, 0, o, [], [])
    requires next' == if last != 0 then next[last := 0] else next
    ensures IsList(next', prev, list, o) && last == Last(o) && NoDup(o)
  {
    assert o + [] + [] == o;
    if o != [] {
      hide Linked, Back, Open, NoDup;
      var front := o[..|o| - 1];
      assert o == front + [last];
      NoDupAppend(front, [last]);
      NoDupNonzero(o);
      LastIn(o);
      OpenPrefix(next, front, last);
      OpenFrame(next, next', front);
      OpenSnoc(next', front, last);
      OpenEnd(next', o, 0);
    }
  }

  lemma SortStep(s: seq<nat>, n: nat, cmp: (nat, nat) -> int)
    requires n > 0
    ensures HashSort.Sort(s, n, cmp)
         == if |s| <= 2 * n then Pass(s, n, cmp) else HashSort.Sort(Pass(s, n, cmp), 2 * n, cmp)
    ensures s == [] ==> HashSort.Sort(s, n, cmp) == []
  {
  }

  /** The runs merged next, and what the pass still has to do. */
  lemma PassStep(o: seq<nat>, r: seq<nat>, n: nat, cmp: (nat, nat) -> int)
    requires n > 0 && r != []
    ensures var i, j := MinNat(n, |r|), MinNat(2 * n, |r|);
            && MinNat(n, |r[i..]|) == j - i && r[i..][..j - i] == r[i..j] && r[i..][j - i..] == r[j..]
            && |Merge(r[..i], r[i..j], cmp)| == j
            && o + Pass(r, n, cmp) == (o + Merge(r[..i], r[i..j], cmp)) + Pass(r[j..], n, cmp)
  {
    hide Merge;
    var i, j := MinNat(n, |r|), MinNat(2 * n, |r|);
    MergeLength(r[..i], r[i..j], cmp);
  }

  lemma PassNone(o: seq<nat>, n: nat, cmp: (nat, nat) -> int)
    requires n > 0
    ensures o + Pass([], n, cmp) == o
  {
  }

  lemma FirstZero(r: seq<nat>, k: nat)
    requires k <= |r| && forall x | x in r :: x != 0
    ensures First(r[k..]) == 0 <==> k == |r|
  {
    if k < |r| { assert r[k] in r; }
  }

  lemma MergeStepP(o: seq<nat>, p: seq<nat>, q: seq<nat>, cmp: (nat, nat) -> int)
    requires p != [] && (q == [] || cmp(p[0], q[0]) <= 0)
    ensures o + Merge(p, q, cmp) == (o + [p[0]]) + Merge(p[1..], q, cmp)
  {
  }

  lemma MergeStepQ(o: seq<nat>, p: seq<nat>, q: seq<nat>, cmp: (nat, nat) -> int)
    requires q != [] && (p == [] || cmp(p[0], q[0]) > 0)
    ensures o + Merge(p, q, cmp) == (o + [q[0]]) + Merge(p, q[1..], cmp)
  {
  }

  lemma RunStep(qs: seq<nat>, size: nat)
    requires qs != [] && size > 0
    ensures RunOf(qs, size) != [] && RunOf(qs, size)[0] == qs[0] && RunOf(qs, size)[1..] == RunOf(qs[1..], size - 1)
    ensures RestOf(qs[1..], size - 1) == RestOf(qs, size)
  {
  }

  /** The second run that is left, and what comes after it. */
  ghost function RunOf(qs: seq<nat>, size: nat): seq<nat> {
    qs[..MinNat(size, |qs|)]
  }

  ghost function RestOf(qs: seq<nat>, size: nat): seq<nat> {
    qs[MinNat(size, |qs|)..]
  }

  lemma RunFirst(qs: seq<nat>, size: nat)
    ensures qs == [] || size == 0 <==> RunOf(qs, size) == []
    ensures RunOf(qs, size) != [] ==> RunOf(qs, size)[0] == qs[0]
  {
  }

  lemma RunOver(o: seq<nat>, qs: seq<nat>, size: nat, cmp: (nat, nat) -> int)
    requires qs == [] || size == 0
    ensures o + Merge([], RunOf(qs, size), cmp) == o && RestOf(qs, size) == qs
  {
    assert MinNat(size, |qs|) == 0;
    assert RunOf(qs, size) == [];
    MergeDone(RunOf(qs, size), cmp);
    hide Merge;
  }

  lemma MergeDone(q: seq<nat>, cmp: (nat, nat) -> int)
    ensures Merge([], q, cmp) == q
  {
  }

}
