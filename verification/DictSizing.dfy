/**
  When the dictionary changes its size and to what: which calls succeed, how large the new table is, and
  how far each operation takes a rehash. Stated with the numbers of the source and without its functions.
 */
module DictSizing {
  import opened Basics
  import opened DictTable
  import opened DictOps

  // ------------------------------------------------------------------ sizes

  /** The least power of two that is not below `n`. */
  ghost predicate LeastPow2(p: nat, n: nat) {
    IsPow2(p) && p >= n && forall q: nat | IsPow2(q) && q >= n :: p <= q
  }

  function MaxNat(a: nat, b: nat): nat {
    if a < b then b else a
  }

  lemma {:induction false} Pow2Gap(q: nat, p: nat)
    requires IsPow2(q) && IsPow2(p) && q < p
    ensures 2 * q <= p
  {
    if q > 1 { Pow2Gap(q / 2, p / 2); }
  }

  lemma NextPowerIsLeast(size: nat)
    requires size < 0x7FFF_FFFF_FFFF_FFFF
    ensures LeastPow2(NextPower(size), MaxNat(4, size))
  {
    NextPowerIsPow2(size);
    var p := NextPower(size);
    hide NextPower;
    forall q: nat | IsPow2(q) && q >= MaxNat(4, size) ensures p <= q {
      if q < p { Pow2Gap(q, p); }
    }
  }

  /** A new table without entries, no larger than `n` asks for. */
  ghost predicate NewFor(t: Table, n: nat) {
    LeastPow2(Size(t), n) && t.used == 0 && forall i | 0 <= i < Size(t) :: t.buckets[i] == []
  }

  /** The new table becomes the first if there was none; else a rehash to it begins at bucket 0. */
  ghost predicate Resized(d: Dict, d': Dict, n: nat) {
    && d'.iterators == d.iterators
    && if Size(d.t0) == 0 then NewFor(d'.t0, n) && d'.t1 == d.t1 && d'.rehashidx == d.rehashidx
       else d'.t0 == d.t0 && NewFor(d'.t1, n) && d'.rehashidx == 0
  }

  lemma NewTableFor(size: nat)
    requires size < 0x7FFF_FFFF_FFFF_FFFF
    ensures NewFor(NewTable(NextPower(size)), MaxNat(4, size))
  {
    NextPowerIsLeast(size);
  }

  /** dictExpand succeeds exactly without a rehash and with room for the entries. */
  lemma ExpandExactly(d: Dict, size: nat)
    requires size < 0x7FFF_FFFF_FFFF_FFFF
    ensures var (d', ok) := Expand(d, size);
            && (ok <==> d.rehashidx == -1 && d.t0.used <= size)
            && (if ok then Resized(d, d', MaxNat(4, size)) else d' == d)
  {
    hide LeastPow2, NextPower, NewTable, NewFor;
    NewTableFor(size);
  }

  /** dictResize is refused exactly with resizing off or a rehash on; it asks for room for the entries. */
  lemma ResizeExactly(d: Dict, canResize: bool)
    requires d.t0.used < 0x7FFF_FFFF_FFFF_FFFF
    ensures var (d', ok) := Resize(d, canResize);
            && (ok <==> canResize && d.rehashidx == -1)
            && (if ok then Resized(d, d', MaxNat(4, d.t0.used)) else d' == d)
  {
    hide Resized, Expand;
    ExpandExactly(d, MaxNat(4, d.t0.used));
    assert MaxNat(4, MaxNat(4, d.t0.used)) == MaxNat(4, d.t0.used);
  }

  /** There is no table yet, or as many entries as buckets and resizing allowed, or far more than that. */
  predicate AtLoadLimit(d: Dict, canResize: bool) {
    d.rehashidx == -1 &&
    (Size(d.t0) == 0 || (d.t0.used >= Size(d.t0) && (canResize || d.t0.used / Size(d.t0) > 5)))
  }

  lemma NoTableNoEntries(d: Dict, h: Hasher)
    requires Valid(d, h)
    ensures Size(d.t0) == 0 ==> d.t0.used == 0
  {
    TotalLenZero(d.t0.buckets);
  }

  /** Growth happens exactly at the load limit, to twice the entries. */
  lemma GrowsExactly(d: Dict, h: Hasher, canResize: bool)
    requires Valid(d, h) && 2 * d.t0.used < 0x7FFF_FFFF_FFFF_FFFF
    ensures var (d', ok) := ExpandIfNeeded(d, canResize);
            ok && if AtLoadLimit(d, canResize) then Resized(d, d', MaxNat(4, 2 * d.t0.used)) else d' == d
  {
    hide Resized, Expand, TableInv, TableGet;
    NoTableNoEntries(d, h);
    ExpandExactly(d, 4);
    ExpandExactly(d, 2 * d.t0.used);
  }

  // ------------------------------------------------------------------ progress of a rehash

  /**
    One step of a rehash empties the first bucket that is not empty and goes on behind it; its entries,
    and no others, come to the second table. If nothing is left, the second table becomes the first.
   */
  lemma RehashMovesOneBucket(d: Dict, h: Hasher) returns (j: nat)
    requires Valid(d, h) && Rehashing(d)
    ensures var d' := RehashOnce(d, h);
            if d.t0.used == 0 then
              d'.t0 == d.t1 && d'.t1 == EmptyTable && d'.rehashidx == -1
            else
              && d.rehashidx <= j < Size(d.t0) && d'.rehashidx == j + 1
              && d.t0.buckets[j] != [] && (forall i | d.rehashidx <= i < j :: d.t0.buckets[i] == [])
              && d'.t0.buckets == d.t0.buckets[j := []] && Size(d'.t1) == Size(d.t1)
              && forall k :: var moved := ChainGet(d.t0.buckets[j], k);
                             TableGet(d'.t1, h, k) == if moved.Some? then moved else TableGet(d.t1, h, k)
  {
    j := 0;
    if d.t0.used != 0 {
      NextBucket(d, h);
      j := FirstNonEmpty(d.t0.buckets, d.rehashidx);
      var c := d.t0.buckets[j];
      forall e | e in c ensures TableGet(d.t1, h, e.key).None? { TableGetIn(d.t0, h, e.key); }
      MoveChainInv(d.t1, h, c);
    }
  }

  /** The sizes and the progress of `d'` are those of `d` after `n` steps, or unchanged while an iterator runs. */
  ghost predicate Moved(d: Dict, h: Hasher, d': Dict, n: nat)
    requires Valid(d, h)
  {
    var r := if d.iterators == 0 then Rehash(d, h, n) else d;
    d'.rehashidx == r.rehashidx && Size(d'.t0) == Size(r.t0) && Size(d'.t1) == Size(r.t1)
  }

  lemma StepMoves(d: Dict, h: Hasher)
    requires Valid(d, h)
    ensures Moved(d, h, Step(d, h), 1)
  {
    hide TableInv, TableGet, RehashOnce;
    if Rehashing(d) { RehashOnceKeeps(d, h); }
  }

  /** Finding and deleting take one step. */
  lemma FindMoves(d: Dict, h: Hasher, k: Key)
    requires Valid(d, h) && Size(d.t0) > 0
    ensures Moved(d, h, Find(d, h, k).0, 1)
  {
    hide Step;
    StepMoves(d, h);
  }

  lemma DeleteMoves(d: Dict, h: Hasher, k: Key)
    requires Valid(d, h) && Size(d.t0) > 0
    ensures Moved(d, h, Delete(d, h, k).0, 1)
  {
    hide Step, TableInv, Rehash;
    StepMoves(d, h);
    StepKeeps(d, h);
    var d1 := Step(d, h);
    if TableGet(d1.t0, h, k).Some? {
      RemoveLength(d1.t0, h, k);
    } else if TableGet(d1.t1, h, k).Some? {
      RemoveLength(d1.t1, h, k);
    }
  }

  /**
    Adding takes one step, then grows at the load limit; a new entry goes to the table that is being
    filled, in front of its bucket.
   */
  lemma AddMoves(d: Dict, h: Hasher, e: Entry, canResize: bool)
    requires Valid(d, h) && 2 * DictSize(d) < 0x7FFF_FFFF_FFFF_FFFF
    ensures var (d', added) := Add(d, h, e, canResize);
            && Moved(d, h, Step(d, h), 1)
            && (AtLoadLimit(Step(d, h), canResize) ==> exists d2 ::
                  Resized(Step(d, h), d2, MaxNat(4, 2 * Step(d, h).t0.used)) && Placed(d2, d', h, e, added))
            && (!AtLoadLimit(Step(d, h), canResize) ==> Placed(Step(d, h), d', h, e, added))
  {
    hide Step, TableInv, TableGet, Rehash, Resized, LeastPow2;
    StepMoves(d, h);
    StepKeeps(d, h);
    GrowsExactly(Step(d, h), h, canResize);
    ExpandIfNeededKeeps(Step(d, h), h, canResize);
    hide ExpandIfNeeded;
    assert Placed(ExpandIfNeeded(Step(d, h), canResize).0, Add(d, h, e, canResize).0, h, e, Add(d, h, e, canResize).1);
  }

  /** `d'` is `d` with the entry in front of its bucket in the second table during a rehash, else in the first. */
  ghost predicate Placed(d: Dict, d': Dict, h: Hasher, e: Entry, added: bool) {
    if !added then d' == d
    else if d.rehashidx != -1 then Size(d.t1) > 0 && d' == d.(t1 := PutFirst(d.t1, h, e))
    else Size(d.t0) > 0 && d' == d.(t0 := PutFirst(d.t0, h, e))
  }

  function PutFirst(t: Table, h: Hasher, e: Entry): Table
    requires Size(t) > 0
  {
    var i := h(e.key) % Size(t);
    Table(t.buckets[..i] + [[e] + t.buckets[i]] + t.buckets[i + 1..], t.used + 1)
  }

  /** Replacing the value of a present key takes a second step, by the lookup. */
  lemma ReplaceMoves(d: Dict, h: Hasher, e: Entry, canResize: bool)
    requires Valid(d, h) && 2 * DictSize(d) < 0x7FFF_FFFF_FFFF_FFFF
    ensures var (d1, added) := Add(d, h, e, canResize);
            && Valid(d1, h)
            && Replace(d, h, e, canResize).1 == added
            && if added then Replace(d, h, e, canResize).0 == d1 else Moved(d1, h, Replace(d, h, e, canResize).0, 1)
  {
    hide TableInv, Step, Add, Rehash;
    AddKeeps(d, h, e, canResize);
    var (d1, added) := Add(d, h, e, canResize);
    if !added { StepMoves(d1, h); }
  }
}
