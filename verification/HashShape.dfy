/**
  The numbers of a uthash table: bucket counts, what the last expansion noted, and whether the table may
  expand. How an added or deleted item changes them, with the numbers of the source.
 */
module HashShape {
  import opened Basics
  import opened HashChains

  /** `expansions` tells of each expansion since the table was made whether it was ineffective. */
  datatype Shape = Shape(counts: seq<nat>, mults: seq<nat>, ideal: nat, nonideal: nat, ineff: nat, noexpand: bool,
                         expansions: seq<bool>)

  /** HASH_MAKE_TABLE. */
  const Fresh := Shape(seq(32, _ => 0), seq(32, _ => 0), 0, 0, 0, false, [])

  /** How many expansions at the end were ineffective. */
  function Trailing(e: seq<bool>): nat {
    if e == [] || !e[|e| - 1] then 0 else 1 + Trailing(e[..|e| - 1])
  }

  /** Expansion is given up exactly after two ineffective ones in a row. */
  ghost predicate ShapeInv(s: Shape) {
    && |s.counts| == |s.mults| == 32 * Pow2(|s.expansions|)
    && s.ineff == Trailing(s.expansions)
    && (s.noexpand <==> |s.expansions| >= 2 && s.expansions[|s.expansions| - 1] && s.expansions[|s.expansions| - 2])
  }

  lemma TrailingTwo(e: seq<bool>)
    ensures Trailing(e) > 1 <==> |e| >= 2 && e[|e| - 1] && e[|e| - 2]
  {
    if e != [] { assert e[..|e| - 1] == [] || e[..|e| - 1][|e| - 2] == e[|e| - 2]; }
  }

  function Counts(bs: seq<Bucket>): seq<nat> {
    seq(|bs|, i requires 0 <= i < |bs| => bs[i].count)
  }

  function Mults(bs: seq<Bucket>): seq<nat> {
    seq(|bs|, i requires 0 <= i < |bs| => bs[i].expandMult)
  }

  /** The items on chains longer than the ideal length, beyond that length. */
  function Beyond(counts: seq<nat>, ideal: nat): nat {
    if counts == [] then 0 else (if counts[0] > ideal then counts[0] - ideal else 0) + Beyond(counts[1..], ideal)
  }

  lemma {:induction false} ExcessIsBeyond(bs: seq<Bucket>, ideal: nat)
    ensures Excess(bs, ideal) == Beyond(Counts(bs), ideal)
  {
    if bs != [] {
      assert Counts(bs)[1..] == Counts(bs[1..]);
      ExcessIsBeyond(bs[1..], ideal);
    }
  }

  /** The chain of the new item is at ten times its multiplier plus one, and expansion has not been given up. */
  predicate Overfull(s: Shape, k: nat)
    requires k < |s.counts| == |s.mults|
  {
    s.counts[k] + 1 >= 10 * (s.mults[k] + 1) && !s.noexpand
  }

  /** An item with hash value `h` is added, as one of `items`: one count more, or twice the buckets. */
  ghost predicate Pushed(a: Shape, h: nat, items: nat, b: Shape)
    requires |a.counts| == |a.mults| > 0
  {
    var k := h % |a.counts|;
    if !Overfull(a, k) then b == a.(counts := a.counts[k := a.counts[k] + 1])
    else
      var n := 2 * |a.counts|;
      && |b.counts| == |b.mults| == n
      && b.ideal > 0 && (b.ideal - 1) * n < items <= b.ideal * n
      && b.nonideal == Beyond(b.counts, b.ideal)
      && (forall c | 0 <= c < n :: b.mults[c] == if b.counts[c] > b.ideal then b.counts[c] / b.ideal else 0)
      && b.expansions == a.expansions + [b.nonideal > items / 2]
      && b.ineff == (if b.nonideal > items / 2 then a.ineff + 1 else 0)
      && b.noexpand == (b.ineff > 1)
  }

  /** An item with hash value `h` is deleted: one count less, and nothing else. */
  ghost predicate Pulled(a: Shape, h: nat, b: Shape)
    requires |a.counts| > 0
  {
    var k := h % |a.counts|;
    a.counts[k] > 0 && b == a.(counts := a.counts[k := a.counts[k] - 1])
  }

  lemma FreshIsSound()
    ensures ShapeInv(Fresh)
  {
  }

  lemma PushedIsSound(a: Shape, h: nat, items: nat, b: Shape)
    requires ShapeInv(a) && Pushed(a, h, items, b)
    ensures ShapeInv(b)
  {
    TrailingTwo(a.expansions);
    TrailingTwo(b.expansions);
    var e := b.expansions;
    assert e != a.expansions ==> e[..|e| - 1] == a.expansions;
  }

  lemma PulledIsSound(a: Shape, h: nat, b: Shape)
    requires ShapeInv(a) && |a.counts| > 0 && Pulled(a, h, b)
    ensures ShapeInv(b)
  {
  }

  /** The numbers after one bucket's count has changed. */
  lemma CountShape(bs: seq<Bucket>, k: nat, bucket: Bucket)
    requires k < |bs| && bucket.expandMult == bs[k].expandMult
    ensures Counts(bs[k := bucket]) == Counts(bs)[k := bucket.count] && Mults(bs[k := bucket]) == Mults(bs)
  {
  }

  /** The numbers after an expansion. */
  lemma ExpandedShape(a: Shape, h: nat, items: nat, bs: seq<Bucket>, b: Shape)
    requires |a.counts| == |a.mults| > 0 && |bs| == 2 * |a.counts| && Overfull(a, h % |a.counts|) && items > 0
    requires b.counts == Counts(bs) && b.mults == Mults(bs) && b.ideal == IdealMax(items, |bs|) > 0
    requires b.nonideal == Excess(bs, b.ideal) && MultsOk(bs, b.ideal)
    requires b.expansions == a.expansions + [b.nonideal > items / 2]
    requires b.ineff == if b.nonideal > items / 2 then a.ineff + 1 else 0
    requires b.noexpand == (b.ineff > 1)
    ensures Pushed(a, h, items, b)
  {
    hide Excess, Beyond, Overfull, IdealMax, Counts, Mults, MultsOk;
    IdealIsCeiling(items, |bs|);
    ExcessIsBeyond(bs, b.ideal);
    MultsShape(bs, b.ideal);
  }

  lemma MultsShape(bs: seq<Bucket>, ideal: nat)
    requires ideal > 0 && MultsOk(bs, ideal)
    ensures |Counts(bs)| == |Mults(bs)| == |bs|
    ensures forall c | 0 <= c < |bs| :: Mults(bs)[c] == if Counts(bs)[c] > ideal then Counts(bs)[c] / ideal else 0
  {
  }

  lemma FreshBuckets(bs: seq<Bucket>)
    requires |bs| == 32 && forall b | 0 <= b < 32 :: bs[b] == Bucket(0, 0, 0)
    ensures Shape(Counts(bs), Mults(bs), 0, 0, 0, false, []) == Fresh
  {
  }

  lemma BucketShape(bs: seq<Bucket>, k: nat)
    requires k < |bs|
    ensures |Counts(bs)| == |Mults(bs)| == |bs| && Counts(bs)[k] == bs[k].count && Mults(bs)[k] == bs[k].expandMult
  {
  }

  lemma InBounds(a: Shape)
    requires ShapeInv(a)
    ensures |a.counts| == |a.mults| && (a.noexpand <==> a.ineff > 1)
  {
    TrailingTwo(a.expansions);
  }

  lemma PlainPush(a: Shape, h: nat, items: nat, b: Shape)
    requires |a.counts| == |a.mults| > 0 && !Overfull(a, h % |a.counts|)
    requires b == a.(counts := a.counts[h % |a.counts| := a.counts[h % |a.counts|] + 1])
    ensures Pushed(a, h, items, b)
  {
  }
}
