/**
  redisdict.c as it runs: a dictionary object whose methods walk chains, relink buckets and advance
  the rehash in place. Each method is proved to do what the operations on table values say.
 */
module DictClass {
  import opened Basics
  import opened BitWords
  import opened DictTable
  import opened DictOps
  import opened DictScan

  /** The search loop along one chain. */
  method SearchChain(c: Chain, k: Key) returns (he: Option<Entry>)
    ensures he == ChainGet(c, k)
  {
    var i := 0;
    while i < |c|
      invariant i <= |c| && ChainGet(c[i..], k) == ChainGet(c, k)
    {
      if c[i].key == k { return Some(c[i]); }
      assert c[i..][1..] == c[i + 1..];
      i := i + 1;
    }
    he := None;
  }

  /** The search-and-unlink loop along one chain. */
  method UnlinkFromChain(c: Chain, k: Key) returns (found: bool, rest: Chain)
    ensures found <==> ChainGet(c, k).Some?
    ensures rest == ChainRemove(c, k)
  {
    var i := 0;
    while i < |c|
      invariant i <= |c| && ChainGet(c[i..], k) == ChainGet(c, k)
      invariant ChainRemove(c, k) == c[..i] + ChainRemove(c[i..], k)
    {
      assert c[i..][1..] == c[i + 1..];
      if c[i].key == k {
        return true, c[..i] + c[i + 1..];
      }
      assert c[..i + 1] == c[..i] + [c[i]];
      i := i + 1;
    }
    return false, c;
  }

  /** The walk that overwrites the value of the entry found. */
  method SetInChain(c: Chain, k: Key, v: Value) returns (r: Chain)
    ensures r == ChainSet(c, k, v)
  {
    var i := 0;
    while i < |c| && c[i].key != k
      invariant i <= |c| && ChainSet(c, k, v) == c[..i] + ChainSet(c[i..], k, v)
    {
      assert c[i..][1..] == c[i + 1..];
      assert c[..i + 1] == c[..i] + [c[i]];
      i := i + 1;
    }
    if i == |c| { return c; }
    assert c[i..][1..] == c[i + 1..];
    r := c[i := c[i].(val := v)];
  }

  method DictNextPower(size: nat) returns (i: nat)
    ensures i == NextPower(size)
  {
    i := INITIAL_SIZE;
    if size >= LONG_MAX { return LONG_MAX; }
    while i < size
      invariant i > 0 && NextPowerFrom(i, size) == NextPower(size)
      decreases size - i
    {
      i := i * 2;
    }
  }

  class Dictionary {
    const h: Hasher
    var ht0: Table
    var ht1: Table
    var rehashidx: int
    var iterators: int

    ghost function State(): Dict
      reads this
    {
      Dict(ht0, ht1, rehashidx, iterators)
    }

    ghost predicate Ok()
      reads this
    {
      Valid(State(), h)
    }

    constructor (h: Hasher)
      ensures this.h == h && State() == Created && Ok()
    {
      this.h := h;
      ht0, ht1, rehashidx, iterators := EmptyTable, EmptyTable, -1, 0;
    }

    method DictExpand(size: nat) returns (ok: bool)
      requires Ok() && size < LONG_MAX
      modifies this
      ensures Ok() && (State(), ok) == Expand(old(State()), size)
    {
      ExpandKeeps(State(), h, size);
      var realsize := DictNextPower(size);
      if rehashidx != -1 || ht0.used > size { return false; }
      var n := Table(seq(realsize, i => []), 0);
      if |ht0.buckets| == 0 {
        ht0 := n;
        return true;
      }
      ht1 := n;
      rehashidx := 0;
      ok := true;
    }

    method DictResize(canResize: bool) returns (ok: bool)
      requires Ok() && 2 * DictSize(State()) < LONG_MAX
      modifies this
      ensures Ok() && (State(), ok) == Resize(old(State()), canResize)
    {
      if !canResize || rehashidx != -1 { return false; }
      var minimal := ht0.used;
      if minimal < INITIAL_SIZE { minimal := INITIAL_SIZE; }
      ok := DictExpand(minimal);
    }

    method DictExpandIfNeeded(canResize: bool) returns (ok: bool)
      requires Ok() && 2 * ht0.used < LONG_MAX
      modifies this
      ensures Ok() && (State(), ok) == ExpandIfNeeded(old(State()), canResize)
    {
      if rehashidx != -1 { return true; }
      if |ht0.buckets| == 0 {
        ok := DictExpand(INITIAL_SIZE);
        return;
      }
      if ht0.used >= |ht0.buckets| && (canResize || ht0.used / |ht0.buckets| > FORCE_RESIZE_RATIO) {
        ok := DictExpand(ht0.used * 2);
        return;
      }
      ok := true;
    }

    /** One round of the loop in dictRehash: drop the old table, or relink its next bucket. */
    method RehashBucket()
      requires Ok() && rehashidx != -1
      modifies this
      ensures Ok() && State() == RehashOnce(old(State()), h)
    {
      ghost var d := State();
      RehashOnceKeeps(d, h);
      if ht0.used == 0 {
        ht0, ht1, rehashidx := ht1, EmptyTable, -1;
        return;
      }
      NextBucket(d, h);
      ghost var j := FirstNonEmpty(d.t0.buckets, d.rehashidx);
      while ht0.buckets[rehashidx] == []
        invariant 0 <= rehashidx <= j
        invariant FirstNonEmpty(d.t0.buckets, rehashidx) == j
        invariant ht0 == d.t0 && ht1 == d.t1 && iterators == d.iterators
        decreases j - rehashidx
      {
        rehashidx := rehashidx + 1;
      }
      var de := ht0.buckets[rehashidx];
      ghost var c := de;
      while de != []
        invariant |de| <= |c| && |c| <= d.t0.used
        invariant Size(ht1) > 0 && MoveChain(ht1, h, de) == MoveChain(d.t1, h, c)
        invariant ht0 == Table(d.t0.buckets, d.t0.used - (|c| - |de|))
        invariant rehashidx == j && iterators == d.iterators
        decreases |de|
      {
        var nextde := de[1..];
        var idx := Idx(h, de[0].key, |ht1.buckets|);
        ht1 := ht1.(buckets := ht1.buckets[idx := [de[0]] + ht1.buckets[idx]], used := ht1.used + 1);
        ht0 := ht0.(used := ht0.used - 1);
        de := nextde;
      }
      ht0 := ht0.(buckets := ht0.buckets[rehashidx := []]);
      rehashidx := rehashidx + 1;
    }

    /** Returns 1 while there are keys left to move, 0 once the old table is gone. */
    method DictRehash(n: nat) returns (ret: int)
      requires Ok()
      modifies this
      ensures Ok() && State() == Rehash(old(State()), h, n)
      ensures ret == if Rehashing(State()) then 1 else 0
    {
      if rehashidx == -1 { return 0; }
      var left := n;
      while left > 0
        invariant Ok() && rehashidx != -1
        invariant Rehash(State(), h, left) == Rehash(old(State()), h, n)
        decreases left
      {
        RehashBucket();
        left := left - 1;
        if rehashidx == -1 { return 0; }
      }
      ret := 1;
    }

    method DictRehashStep()
      requires Ok()
      modifies this
      ensures Ok() && State() == Step(old(State()), h)
    {
      StepKeeps(State(), h);
      if rehashidx != -1 && iterators == 0 {
        ghost var d := State();
        var r := DictRehash(1);
        RehashOnceKeeps(d, h);
        assert Rehash(RehashOnce(d, h), h, 0) == RehashOnce(d, h);
      }
    }

    /** The loop over the two tables, of which the second is tried only while rehashing. */
    method Lookup(k: Key) returns (he: Option<Entry>)
      requires Ok() && |ht0.buckets| > 0
      ensures he == Get(State(), h, k)
    {
      var table := 0;
      while table <= 1
        invariant 0 <= table <= 2
        invariant table >= 1 ==> Rehashing(State()) && TableGet(ht0, h, k).None?
        invariant table == 2 ==> TableGet(ht1, h, k).None?
      {
        var t := if table == 0 then ht0 else ht1;
        he := SearchChain(t.buckets[Idx(h, k, |t.buckets|)], k);
        if he.Some? { return; }
        if rehashidx == -1 { return None; }
        table := table + 1;
      }
      he := None;
    }

    method DictFind(k: Key) returns (he: Option<Entry>)
      requires Ok()
      modifies this
      ensures Ok() && (State(), he) == Find(old(State()), h, k)
    {
      StepKeeps(State(), h);
      if |ht0.buckets| == 0 { return None; }
      DictRehashStep();
      he := Lookup(k);
    }

    method DictAdd(e: Entry, canResize: bool) returns (added: bool)
      requires Ok() && 2 * DictSize(State()) < LONG_MAX
      modifies this
      ensures Ok() && (State(), added) == Add(old(State()), h, e, canResize)
    {
      hide TableInv, ExpandIfNeeded, Step, TableGet;
      ghost var d := State();
      StepKeeps(d, h);
      AddKeeps(d, h, e, canResize);
      DictRehashStep();
      ExpandIfNeededKeeps(State(), h, canResize);
      var ok := DictExpandIfNeeded(canResize);
      if !ok { return false; }
      var he := Lookup(e.key);
      if he.Some? { return false; }
      if rehashidx != -1 {
        var idx := Idx(h, e.key, |ht1.buckets|);
        ht1 := Table(ht1.buckets[idx := [e] + ht1.buckets[idx]], ht1.used + 1);
      } else {
        var idx := Idx(h, e.key, |ht0.buckets|);
        ht0 := Table(ht0.buckets[idx := [e] + ht0.buckets[idx]], ht0.used + 1);
      }
      added := true;
    }

    /** 1 if the key was added, 0 if the value of the present entry was overwritten. */
    method DictReplace(e: Entry, canResize: bool) returns (ret: int)
      requires Ok() && 2 * DictSize(State()) < LONG_MAX
      modifies this
      ensures Ok() && State() == Replace(old(State()), h, e, canResize).0
      ensures ret == if Replace(old(State()), h, e, canResize).1 then 1 else 0
    {
      AddKeeps(State(), h, e, canResize);
      ReplaceKeeps(State(), h, e, canResize);
      var added := DictAdd(e, canResize);
      if added { return 1; }
      var he := DictFind(e.key);
      SetFound(e.key, e.val);
      ret := 0;
    }

    /** dictSetVal on the entry that a lookup found. */
    method SetFound(k: Key, v: Value)
      requires Ok() && Get(State(), h, k).Some?
      modifies this
      ensures Ok() && State() == SetValue(old(State()), h, k, v)
    {
      SetValueKeeps(State(), h, k, v);
      if |ht0.buckets| > 0 {
        var i := Idx(h, k, |ht0.buckets|);
        var he := SearchChain(ht0.buckets[i], k);
        if he.Some? {
          var c := SetInChain(ht0.buckets[i], k, v);
          ht0 := ht0.(buckets := ht0.buckets[i := c]);
          return;
        }
      }
      var i := Idx(h, k, |ht1.buckets|);
      var c := SetInChain(ht1.buckets[i], k, v);
      ht1 := ht1.(buckets := ht1.buckets[i := c]);
    }

    method DictDelete(k: Key) returns (deleted: bool)
      requires Ok()
      modifies this
      ensures Ok() && (State(), deleted) == Delete(old(State()), h, k)
    {
      hide TableInv, Step, ChainRemove;
      DeleteKeeps(State(), h, k);
      StepKeeps(State(), h);
      if |ht0.buckets| == 0 { return false; }
      DictRehashStep();
      ghost var d := State();
      var found, c := UnlinkFromChain(ht0.buckets[Idx(h, k, |ht0.buckets|)], k);
      if found {
        UsedPositive(ht0, h, k);
        ht0 := Table(ht0.buckets[Idx(h, k, |ht0.buckets|) := c], ht0.used - 1);
        return true;
      }
      if rehashidx == -1 { return false; }
      found, c := UnlinkFromChain(ht1.buckets[Idx(h, k, |ht1.buckets|)], k);
      if found {
        UsedPositive(ht1, h, k);
        ht1 := Table(ht1.buckets[Idx(h, k, |ht1.buckets|) := c], ht1.used - 1);
        return true;
      }
      deleted := false;
    }
  
    /**
      dictScan: passes entries to a callback, here by appending them to `emitted`, and returns the
      cursor for the next call. `w` is the width of unsigned long.
     */
    method DictScan(cursor: Word) returns (v: Word, emitted: Chain)
      requires Ok() && Scannable(State(), h, |cursor|) && IsPow2(|cursor|)
      ensures v == ScanNext(State(), h, cursor)
      ensures emitted == ScanEmits(State(), h, cursor)
    {
      hide Val, Bits, Log2, Expansions, Collect;
      var w := |cursor|;
      v, emitted := cursor, [];
      if ht0.used + ht1.used == 0 { return Zeros(w), []; }
      TablesFit(State(), h, w);
      var m0;
      if rehashidx == -1 {
        m0, emitted := ScanOne(v, ht0);
      } else {
        var t0, t1 := ht0, ht1;
        if |t0.buckets| > |t1.buckets| { t0, t1 := ht1, ht0; }
        m0 := FromNat(|t0.buckets| - 1, w);
        MaskOf(t0, w);
        v, emitted := ScanTwo(v, t0, t1);
      }
      ghost var k := ScanMask(State(), h, w);
      assert Or(v, Not(Mask(w, k))) == Or(cursor, Not(Mask(w, k))) by { UnmaskedBits(v, cursor, k); }
      v := Or(v, Not(m0));
      v := Rev(v);
      v := Inc(v);
      v := Rev(v);
    }

    method ScanOne(v: Word, t0: Table) returns (m0: Word, emitted: Chain)
      requires IsPow2(Size(t0)) && Bits(t0) <= |v|
      ensures m0 == Mask(|v|, Bits(t0))
      ensures emitted == Collect(t0.buckets, [Val(v[..Bits(t0)])])
    {
      m0 := FromNat(|t0.buckets| - 1, |v|);
      MaskOf(t0, |v|);
      MaskKeepsLow(v, Bits(t0));
      ValBound(v[..Bits(t0)]);
      CollectOne(t0.buckets, Val(v[..Bits(t0)]));
      emitted := Emit([], t0.buckets[Val(And(v, m0))]);
    }

    method Emit(emitted: Chain, bucket: Chain) returns (r: Chain)
      ensures r == emitted + bucket
    {
      r := emitted;
      var i := 0;
      while i < |bucket|
        invariant i <= |bucket| && r == emitted + bucket[..i]
      {
        r := r + [bucket[i]];
        i := i + 1;
      }
    }

    /** The part for two tables: one bucket of the smaller, then its expansions in the larger. */
    method ScanTwo(cursor: Word, t0: Table, t1: Table) returns (v: Word, emitted: Chain)
      requires IsPow2(Size(t0)) && IsPow2(Size(t1)) && Bits(t0) <= Bits(t1) <= |cursor|
      ensures |v| == |cursor| && v[..Bits(t0)] == cursor[..Bits(t0)]
      ensures emitted == Collect(t0.buckets, [Val(cursor[..Bits(t0)])])
                         + Collect(t1.buckets, Expansions(cursor, Bits(t0), Bits(t1)))
    {
      var w := |cursor|;
      var m0;
      m0, emitted := ScanOne(cursor, t0);
      var m1 := FromNat(|t1.buckets| - 1, w);
      MaskOf(t1, w);
      var rest;
      v, rest := ScanExpansions(cursor, t1, m0, m1, Bits(t0));
      emitted := emitted + rest;
    }

    /** The do-while loop over the larger table. */
    method ScanExpansions(cursor: Word, t1: Table, m0: Word, m1: Word, ghost k0: nat) returns (v: Word, emitted: Chain)
      requires IsPow2(Size(t1)) && k0 <= Bits(t1) <= |cursor|
      requires m0 == Mask(|cursor|, k0) && m1 == Mask(|cursor|, Bits(t1))
      ensures |v| == |cursor| && v[..k0] == cursor[..k0]
      ensures emitted == Collect(t1.buckets, Expansions(cursor, k0, Bits(t1)))
    {
      hide Val, Pow2, Log2, Inc, FromNat, Collect, Expansions, NextExpansion, Mask;
      ghost var k1, all := Bits(t1), Collect(t1.buckets, Expansions(cursor, k0, Bits(t1)));
      v, emitted := cursor, [];
      var more := true;
      assert [] + all == all;
      while more
        invariant |v| == |cursor| && v[..k0] == cursor[..k0]
        invariant all == emitted + if more then Collect(t1.buckets, Expansions(v, k0, k1)) else []
        decreases more, Pow2(k1 - k0) - Val(v[k0..k1])
      {
        BetweenCountsUp(v, k0, k1);
        ghost var e0 := emitted;
        var bucket;
        bucket, v, more := ReadExpansion(v, t1, m0, m1, k0, k1);
        ValBound(v[k0..k1]);
        emitted := Emit(emitted, bucket);
        assert all == e0 + (bucket + if more then Collect(t1.buckets, Expansions(v, k0, k1)) else []);
      }
      assert emitted + [] == emitted;
    }

    /** One round of the do-while loop. */
    method ReadExpansion(cursor: Word, t1: Table, m0: Word, m1: Word, ghost k0: nat, ghost k1: nat)
      returns (bucket: Chain, v: Word, more: bool)
      requires IsPow2(Size(t1)) && k0 <= k1 <= |cursor| && k1 == Bits(t1)
      requires m0 == Mask(|cursor|, k0) && m1 == Mask(|cursor|, k1)
      ensures v == NextExpansion(cursor, k0) && |v| == |cursor|
      ensures more <==> Val(Between(v, k0, k1)) != 0
      ensures bucket + (if more then Collect(t1.buckets, Expansions(v, k0, k1)) else [])
           == Collect(t1.buckets, Expansions(cursor, k0, k1))
    {
      MaskKeepsLow(cursor, k1);
      ValBound(cursor[..k1]);
      bucket := t1.buckets[Val(And(cursor, m1))];
      v := Or(And(Inc(Or(cursor, m0)), Not(m0)), And(cursor, m0));
      BetweenCountsUp(cursor, k0, k1);
      BetweenTest(v, k0, k1);
      more := And(v, Xor(m0, m1)) != Zeros(|v|);
      hide Val, Inc, Mask, Pow2, Log2, Zeros, And, Or, Not, Xor, Between;
      CollectCons(t1.buckets, Val(cursor[..k1]), if more then Expansions(v, k0, k1) else []);
      assert Collect(t1.buckets, []) == [];
    }
  }

  lemma MaskOf(t: Table, w: nat)
    requires IsPow2(Size(t)) && Bits(t) <= w
    ensures FromNat(Size(t) - 1, w) == Mask(w, Bits(t))
  {
    MaskIsSizeMinusOne(w, Bits(t));
  }

  /** Setting the bits above a mask forgets what they were. */
  lemma UnmaskedBits(x: Word, y: Word, k: nat)
    requires |x| == |y| && k <= |x| && x[..k] == y[..k]
    ensures Or(x, Not(Mask(|x|, k))) == Or(y, Not(Mask(|x|, k)))
  {
  }

  lemma CollectOne(bs: Buckets, j: nat)
    requires j < |bs|
    ensures Collect(bs, [j]) == bs[j]
  {
  }

  lemma CollectCons(bs: Buckets, j: nat, js: seq<nat>)
    requires j < |bs|
    ensures Collect(bs, [j] + js) == bs[j] + Collect(bs, js)
  {
  }

  /** The loop condition v & (m0 ^ m1) looks at the bits between the two masks. */
  lemma BetweenTest(v: Word, k0: nat, k1: nat)
    requires k0 <= k1 <= |v|
    ensures And(v, Xor(Mask(|v|, k0), Mask(|v|, k1))) == Zeros(|v|) <==> Val(Between(v, k0, k1)) == 0
  {
    var w, mid := |v|, v[k0..k1];
    var x := And(v, Xor(Mask(w, k0), Mask(w, k1)));
    assert x == Zeros(k0) + mid + Zeros(w - k1);
    ValIsZero(mid);
    assert mid == x[k0..k1];
    assert Zeros(w)[k0..k1] == Zeros(|mid|);
    assert Zeros(k0) + Zeros(|mid|) + Zeros(w - k1) == Zeros(w);
  }

  lemma UsedPositive(t: Table, h: Hasher, k: Key)
    requires TableInv(t, h) && TableGet(t, h, k).Some?
    ensures t.used > 0
  {
    RemoveFromInv(t, h, k);
  }
}
