/**
  The exact condition under which a call of dictScan made while both tables exist covers its block:
  a caller who knows the two sizes, the cursor and how far the rehash has come can decide whether some
  entry may be skipped.
 */
module DictScanExact {
  import opened Basics
  import opened BitWords
  import opened DictTable
  import opened DictOps
  import opened DictScan

  /** The same sizes, and the rehash has come as far. */
  ghost predicate SameShape(d: Dict, d': Dict) {
    Size(d'.t0) == Size(d.t0) && Size(d'.t1) == Size(d.t1) && d'.rehashidx == d.rehashidx
  }

  /** The call passes every entry from the cursor to the next one to the callback. */
  ghost predicate Covers(d: Dict, h: Hasher, v: Word)
    requires Scannable(d, h, |v|) && Rehashing(d)
  {
    forall k :: Get(d, h, k).Some? && InBlock(v, ScanMask(d, h, |v|), h(k)) ==> Get(d, h, k).value in ScanEmits(d, h, v)
  }

  lemma GoodCallCovers(d: Dict, h: Hasher, v: Word)
    requires Scannable(d, h, |v|) && Rehashing(d) && GoodCall(d, h, v)
    ensures Covers(d, h, v)
  {
    hide Scannable, Get, GoodCall, ScanEmits, R, ScanMask, Valid;
    forall k | Get(d, h, k).Some? && InBlock(v, ScanMask(d, h, |v|), h(k))
      ensures Get(d, h, k).value in ScanEmits(d, h, v)
    {
      InBlockIsBeforeNext(d, h, v, k);
      CallCovers(d, h, v, k);
    }
  }

  lemma InBlockIsBeforeNext(d: Dict, h: Hasher, v: Word, k: Key)
    requires Scannable(d, h, |v|) && Rehashing(d) && Get(d, h, k).Some? && InBlock(v, ScanMask(d, h, |v|), h(k))
    ensures R(v) <= R(HashWord(h, k, |v|))
    ensures R(ScanNext(d, h, v)) == 0 || R(HashWord(h, k, |v|)) < R(ScanNext(d, h, v))
  {
    hide R, NextCursor;
    NotEmpty(d, h, k);
    CursorIsNextBlock(v, ScanMask(d, h, |v|));
  }

  const Lone := Entry(0, "", 0)

  /** A table of `n` buckets with one entry. */
  function LoneTable(n: nat, h: Hasher): Table
    requires n > 0
  {
    AddTo(NewTable(n), h, Lone)
  }

  lemma LoneTableIs(n: nat, h: Hasher)
    requires IsPow2(n)
    ensures TableInv(NewTable(n), h) && TableInv(LoneTable(n, h), h)
    ensures Size(NewTable(n)) == Size(LoneTable(n, h)) == n
    ensures forall k :: TableGet(NewTable(n), h, k).None? && (TableGet(LoneTable(n, h), h, k).Some? <==> k == "")
    ensures TableGet(LoneTable(n, h), h, "") == Some(Lone)
    ensures forall j | 0 <= j < n :: NewTable(n).buckets[j] == []
    ensures forall j | 0 <= j < n && LoneTable(n, h).buckets[j] != [] :: j == h("") % n
  {
    NewTableInv(n, h);
    AddToInv(NewTable(n), h, Lone);
  }

  /** The dictionary of the given shape that holds nothing but one entry, in its larger table. */
  function LoneDict(d: Dict, h: Hasher): Dict
    requires Size(d.t0) > 0 && Size(d.t1) > 0
  {
    if Size(d.t0) > Size(d.t1) then Dict(LoneTable(Size(d.t0), h), NewTable(Size(d.t1)), d.rehashidx, 0)
    else Dict(NewTable(Size(d.t0)), LoneTable(Size(d.t1), h), d.rehashidx, 0)
  }

  lemma LoneDictIs(d: Dict, h: Hasher, g: Hasher, w: nat)
    requires Scannable(d, h, w) && Rehashing(d)
    requires Size(d.t0) > Size(d.t1) ==> d.rehashidx <= g("") % Size(d.t0)
    ensures Scannable(LoneDict(d, g), g, w) && SameShape(d, LoneDict(d, g)) && Get(LoneDict(d, g), g, "") == Some(Lone)
    ensures forall j | 0 <= j < Size(Small(d)) :: Small(LoneDict(d, g)).buckets[j] == []
    ensures forall j | 0 <= j < Size(Large(d)) && Large(LoneDict(d, g)).buckets[j] != [] :: j == g("") % Size(Large(d))
  {
    hide TableInv, TableGet, NewTable, AddTo, IsPow2;
    PowSizes(d, h);
    LoneTableIs(Size(d.t0), g);
    LoneTableIs(Size(d.t1), g);
    hide LoneTable;
  }

  lemma PowSizes(d: Dict, h: Hasher)
    requires Valid(d, h) && Rehashing(d)
    ensures IsPow2(Size(d.t0)) && IsPow2(Size(d.t1))
  {
  }

  /** A call that is not good skips an entry in some dictionary of the same shape. */
  lemma BadCallMisses(d: Dict, h: Hasher, v: Word) returns (d': Dict, h': Hasher)
    requires Scannable(d, h, |v|) && Rehashing(d) && !GoodCall(d, h, v)
    requires |v| >= 32 && Size(d.t0) <= Pow2(32) && Size(d.t1) <= Pow2(32)
    ensures SameShape(d, d') && Scannable(d', h', |v|) && !Covers(d', h', v)
  {
    hide Valid, Pow2, R, Get, Val, GoodCursor;
    TablesFit(d, h, |v|);
    var k0, k1 := Bits(Small(d)), Bits(Large(d));
    var x := BadSkipsBucket(v, k0, k1);
    Pow2Monotone(k1, 32);
    var hash := SmallValue(x, k1);
    SameBlock(v, x, k0);
    FromNatPrefix(hash, |v|, k1);
    FromNatVal(hash, k1);
    h' := _ => hash;
    assert h'("") % Size(Large(d)) == Val(x[..k1]);
    d' := LoneDict(d, h');
    LoneDictIs(d, h, h', |v|);
    LoneSkipped(v, k0, k1, x);
    NotEmpty(d', h', "");
    LoneNotEmitted(d', h', v, Val(x[..k1]));
    hide Scannable, ScanEmits, Bits, LoneDict, InBlock;
    assert InBlock(v, ScanMask(d', h', |v|), h'(""));
  }

  lemma LoneNotEmitted(d': Dict, h': Hasher, v: Word, u: nat)
    requires Scannable(d', h', |v|) && Rehashing(d') && DictSize(d') > 0
    requires (TablesFit(d', h', |v|); u !in Expansions(v, Bits(Small(d')), Bits(Large(d'))))
    requires forall j | 0 <= j < Size(Small(d')) :: Small(d').buckets[j] == []
    requires forall j | 0 <= j < Size(Large(d')) && Large(d').buckets[j] != [] :: j == u
    ensures Lone !in ScanEmits(d', h', v)
  {
    hide Valid, Pow2, Val, Expansions, Collect, Bits, TableInv, TableGet;
    TablesFit(d', h', |v|);
    var k0, k1 := Bits(Small(d')), Bits(Large(d'));
    CollectHas(Small(d').buckets, [Val(v[..k0])], Lone);
    CollectHas(Large(d').buckets, Expansions(v, k0, k1), Lone);
  }

  lemma LoneSkipped(v: Word, k0: nat, k1: nat, x: Word)
    requires k0 <= k1 <= |v| && |x| == |v| && Val(x[k0..k1]) < Val(v[k0..k1])
    ensures Val(x[..k1]) !in Expansions(v, k0, k1)
  {
    assert x[..k1][k0..] == x[k0..k1];
    ExpansionsAre(v, k0, k1, x[..k1]);
  }

  /**
    Made while both tables exist, a call covers its block in every dictionary of the given sizes and
    progress if and only if it is a good call.
   */
  lemma CoverageIsExact(d: Dict, h: Hasher, v: Word)
    requires Scannable(d, h, |v|) && Rehashing(d)
    requires |v| >= 32 && Size(d.t0) <= Pow2(32) && Size(d.t1) <= Pow2(32)
    ensures GoodCall(d, h, v) <==>
            forall d', h' :: SameShape(d, d') && Scannable(d', h', |v|) ==> Covers(d', h', v)
  {
    hide Scannable, Covers, Pow2;
    if GoodCall(d, h, v) {
      forall d', h' | SameShape(d, d') && Scannable(d', h', |v|) ensures Covers(d', h', v) {
        SameShapeGood(d, h, d', h', v);
        GoodCallCovers(d', h', v);
      }
    } else {
      var d', h' := BadCallMisses(d, h, v);
    }
  }

  lemma SameShapeGood(d: Dict, h: Hasher, d': Dict, h': Hasher, v: Word)
    requires Scannable(d, h, |v|) && Scannable(d', h', |v|) && SameShape(d, d') && GoodCall(d, h, v)
    ensures GoodCall(d', h', v)
  {
    hide Valid, GoodCursor, Pow2;
  }
}
