/**
  Where the scan's promise fails: a table of 16 buckets shrinks to 4 while the cursor stands at 8, and
  an entry that is there throughout is never passed to the callback.
 */
module DictScanGap {
  import opened Basics
  import opened BitWords
  import opened DictTable
  import opened DictOps
  import opened DictScan

  const HashOfA: Hasher := k => if k == "a" then 4 else 0

  const A := Entry(0, "a", 1)

  /** One entry, in bucket 4 of 16. */
  const Wide := Dict(Table(NewTable(16).buckets[4 := [A]], 1), EmptyTable, -1, 0)

  /** The same while it is being rehashed to 4 buckets. */
  const Shrinking := Wide.(t1 := NewTable(4), rehashidx := 0)

  const Grown := Dict(NewTable(16), EmptyTable, -1, 0)

  lemma ExpandToSixteen()
    ensures Apply(Created, HashOfA, ExpandOp(16)) == Grown
  {
  }

  lemma AddToSixteen()
    requires Valid(Grown, HashOfA)
    ensures Apply(Grown, HashOfA, AddOp(A, true)) == Wide
  {
    hide Valid, TableInv;
    assert NewTable(16).buckets[4] == [];
    assert [A] + NewTable(16).buckets[4] == [A];
    assert Idx(HashOfA, "a", 16) == 4;
    assert AddTo(NewTable(16), HashOfA, A) == Wide.t0;
  }

  lemma WideIsReachable()
    ensures After(HashOfA, [ExpandOp(16), AddOp(A, true)]) == Some((Wide, map["a" := 1]))
    ensures Valid(Wide, HashOfA)
  {
    hide Apply, NewTable, Valid, Abs, Expand, Add;
    var ops := [ExpandOp(16), AddOp(A, true)];
    assert ops[..1] == [ExpandOp(16)];
    GrownIsReachable();
    AddToSixteen();
    assert After(HashOfA, ops) == Some((Wide, map["a" := 1]));
  }

  lemma GrownIsEmpty()
    ensures DictSize(Grown) == 0
  {
  }

  lemma GrownIsReachable()
    ensures After(HashOfA, [ExpandOp(16)]) == Some((Grown, map[]))
    ensures Valid(Grown, HashOfA) && DictSize(Grown) == 0
  {
    GrownIsEmpty();
    hide Apply, NewTable, Valid, Abs, Expand, Add;
    assert [ExpandOp(16)][..0] == [];
    assert After(HashOfA, []) == Some((Created, map[]));
    ExpandToSixteen();
  }

  lemma ShrinkingIsNext()
    requires Valid(Wide, HashOfA)
    ensures Get(Wide, HashOfA, "a") == Some(A) && DictSize(Wide) == 1
    ensures Apply(Wide, HashOfA, ResizeOp(true)) == Shrinking
    ensures Valid(Shrinking, HashOfA) && Get(Shrinking, HashOfA, "a") == Some(A) && DictSize(Shrinking) == 1
  {
    assert NextPower(4) == 4;
    ApplyKeeps(Wide, HashOfA, ResizeOp(true));
  }

  lemma Sizes(w: nat)
    requires w >= 32
    ensures Pow2(2) == 4 && Pow2(4) == 16 && Pow2(w) >= 16
    ensures Log2(4) == 2 && Log2(16) == 4
  {
    Pow2Monotone(4, w);
    assert Log2(4) == 1 + Log2(2);
    assert Log2(16) == 1 + Log2(8);
    assert Log2(8) == 1 + Log2(4);
  }

  /** After the first call the cursor is 8: its bits between the masks of 4 and of 16 are 0, then 1. */
  lemma CursorAtEight(w: nat) returns (v: Word)
    requires w >= 32
    ensures v == NextCursor(Zeros(w), 4) && |v| == w
    ensures v[..2] == Zeros(2) && v[2..4] == [false, true] && !GoodCursor(v, 2, 4)
  {
    v := NextCursor(Zeros(w), 4);
    var x := Reversed(Or(Zeros(w), Not(Mask(w, 4))));
    assert x == Ones(w - 4) + Zeros(4);
    IncConcat(Ones(w - 4), Zeros(4));
    assert Inc(Zeros(4)) == [true] + Zeros(4)[1..];
    assert v == Reversed(Zeros(w - 4) + ([true] + Zeros(4)[1..]));
    assert v[3] && !v[2] && !v[1] && !v[0];
  }

  /** The bucket of the entry is not read from a cursor with other low bits, nor from 8. */
  lemma NotRead(v: Word)
    requires |v| >= 32
    requires v[..2] != Zeros(2) || v[2..4] == [false, true]
    ensures 4 !in Expansions(v, 2, 4)
  {
    var u := [false, false, true, false];
    assert u[..2] == Zeros(2);
    assert u[1..] == [false, true, false] && u[2..] == [true, false] && u[3..] == [false];
    assert Val([false]) == 0 by { assert [false][1..] == []; }
    assert Val(u[2..]) == 1 by { assert u[2..][1..] == [false]; }
    assert Val(u[1..]) == 2 by { assert u[1..][1..] == u[2..]; }
    assert Val(u) == 4;
    if v[2..4] == [false, true] {
      assert Val([true]) == 1 by { assert [true][1..] == []; }
      assert Val([false, true]) == 2 by { assert [false, true][1..] == [true]; }
    }
    ExpansionsAre(v, 2, 4, u);
  }

  lemma NotEmitted(w: nat, v: Word)
    requires w >= 32 && |v| == w && Scannable(Shrinking, HashOfA, w)
    requires v[..2] != Zeros(2) || v[2..4] == [false, true]
    ensures A !in ScanEmits(Shrinking, HashOfA, v)
    ensures ScanNext(Shrinking, HashOfA, v) == NextCursor(v, 2)
  {
    Sizes(w);
    NotRead(v);
    CollectHas(Small(Shrinking).buckets, [Val(v[..2])], A);
    CollectHas(Large(Shrinking).buckets, Expansions(v, 2, 4), A);
    assert forall j: nat | j < 16 && A in Wide.t0.buckets[j] :: j == 4;
  }

  lemma NotEmittedFirst(w: nat)
    requires w >= 32 && Scannable(Wide, HashOfA, w)
    ensures A !in ScanEmits(Wide, HashOfA, Zeros(w))
    ensures ScanNext(Wide, HashOfA, Zeros(w)) == NextCursor(Zeros(w), 4)
  {
    Sizes(w);
    assert Zeros(w)[..4] == Zeros(4);
    ValZeros(4);
    CollectHas(Wide.t0.buckets, [0], A);
    assert Wide.t0.buckets[0] == [];
  }

  /** From 8 on, three more calls with the smaller mask return cursors with other low bits, then 0. */
  lemma CursorsAfterEight(v1: Word) returns (v2: Word, v3: Word, v4: Word)
    requires |v1| >= 32 && v1[..2] == Zeros(2)
    ensures v2 == NextCursor(v1, 2) && v3 == NextCursor(v2, 2) && v4 == NextCursor(v3, 2)
    ensures NextCursor(v4, 2) == Zeros(|v1|)
    ensures |v2| == |v3| == |v4| == |v1|
    ensures v2[..2] != Zeros(2) && v3[..2] != Zeros(2) && v4[..2] != Zeros(2)
  {
    RZeros(2);
    assert Pow2(2) == 4;
    v2 := NextCursor(v1, 2);
    NextOfBlock(v1, 2);
    v3 := NextCursor(v2, 2);
    NextOfBlock(v2, 2);
    v4 := NextCursor(v3, 2);
    NextOfBlock(v3, 2);
    NextOfBlock(v4, 2);
  }

  lemma ResizeEvolves()
    requires Valid(Wide, HashOfA)
    ensures Valid(Shrinking, HashOfA) && Evolves(Wide, HashOfA, [ResizeOp(true)], Shrinking)
  {
    ShrinkingIsNext();
    assert [ResizeOp(true)][1..] == [];
  }

  lemma BothScannable(w: nat)
    requires w >= 32 && Valid(Wide, HashOfA) && Valid(Shrinking, HashOfA)
    ensures Scannable(Wide, HashOfA, w) && Scannable(Shrinking, HashOfA, w)
  {
    Sizes(w);
  }

  /** Five calls, the first before and the others after one resize, make up a scan. */
  lemma FiveCalls(h: Hasher, w: nat, a: Dict, b: Dict, op: Op, v1: Word, v2: Word, v3: Word, v4: Word, k: Key, e: Entry)
    returns (ds: seq<Dict>, vs: seq<Word>, ops: seq<seq<Op>>)
    requires Scannable(a, h, w) && Scannable(b, h, w) && Evolves(a, h, [op], b)
    requires |v1| == |v2| == |v3| == |v4| == w
    requires ScanNext(a, h, Zeros(w)) == v1 && ScanNext(b, h, v1) == v2 && ScanNext(b, h, v2) == v3
    requires ScanNext(b, h, v3) == v4 && ScanNext(b, h, v4) == Zeros(w)
    requires Get(a, h, k) == Get(b, h, k) == Some(e) && e !in ScanEmits(a, h, Zeros(w))
    requires e !in ScanEmits(b, h, v1) && e !in ScanEmits(b, h, v2)
    requires e !in ScanEmits(b, h, v3) && e !in ScanEmits(b, h, v4)
    ensures ScanRun(h, w, ds, vs, ops) && ds[0] == a
    ensures forall i | 0 <= i < |ds| :: Get(ds[i], h, k) == Some(e) && e !in ScanEmits(ds[i], h, vs[i])
  {
    hide Scannable, ScanNext, Apply, ScanEmits, Get;
    ds := [a, b, b, b, b];
    vs := [Zeros(w), v1, v2, v3, v4, Zeros(w)];
    ops := [[op], [], [], []];
  }

  /**
    A complete scan, from cursor 0 until 0 is returned, over a reachable dictionary that is resized
    once in between: the key is in it at every call and its entry is never emitted.
   */
  lemma ScanCanMiss(w: nat) returns (ds: seq<Dict>, vs: seq<Word>, ops: seq<seq<Op>>)
    requires w >= 32
    ensures ScanRun(HashOfA, w, ds, vs, ops)
    ensures exists built :: After(HashOfA, built).Some? && After(HashOfA, built).value.0 == ds[0]
    ensures forall i | 0 <= i < |ds| ::
              Get(ds[i], HashOfA, "a") == Some(A) && A !in ScanEmits(ds[i], HashOfA, vs[i])
  {
    GapStates(w);
    hide *;
    var v1 := CursorAtEight(w);
    var v2, v3, v4 := CursorsAfterEight(v1);
    GapCalls(w, v1, v2, v3, v4);
    ds, vs, ops := FiveCalls(HashOfA, w, Wide, Shrinking, ResizeOp(true), v1, v2, v3, v4, "a", A);
  }

  lemma GapStates(w: nat)
    requires w >= 32
    ensures exists built :: After(HashOfA, built).Some? && After(HashOfA, built).value.0 == Wide
    ensures Scannable(Wide, HashOfA, w) && Scannable(Shrinking, HashOfA, w)
    ensures Evolves(Wide, HashOfA, [ResizeOp(true)], Shrinking)
    ensures Get(Wide, HashOfA, "a") == Get(Shrinking, HashOfA, "a") == Some(A)
  {
    hide *;
    WideIsReachable();
    ShrinkingIsNext();
    ResizeEvolves();
    BothScannable(w);
  }

  lemma GapCalls(w: nat, v1: Word, v2: Word, v3: Word, v4: Word)
    requires w >= 32 && |v1| == |v2| == |v3| == |v4| == w
    requires Scannable(Wide, HashOfA, w) && Scannable(Shrinking, HashOfA, w)
    requires v1[2..4] == [false, true] && v2[..2] != Zeros(2) && v3[..2] != Zeros(2) && v4[..2] != Zeros(2)
    ensures A !in ScanEmits(Wide, HashOfA, Zeros(w)) && A !in ScanEmits(Shrinking, HashOfA, v1)
    ensures A !in ScanEmits(Shrinking, HashOfA, v2) && A !in ScanEmits(Shrinking, HashOfA, v3)
    ensures A !in ScanEmits(Shrinking, HashOfA, v4)
    ensures ScanNext(Wide, HashOfA, Zeros(w)) == NextCursor(Zeros(w), 4)
    ensures ScanNext(Shrinking, HashOfA, v1) == NextCursor(v1, 2)
    ensures ScanNext(Shrinking, HashOfA, v2) == NextCursor(v2, 2)
    ensures ScanNext(Shrinking, HashOfA, v3) == NextCursor(v3, 2)
    ensures ScanNext(Shrinking, HashOfA, v4) == NextCursor(v4, 2)
  {
    hide *;
    NotEmittedFirst(w);
    NotEmitted(w, v1);
    NotEmitted(w, v2);
    NotEmitted(w, v3);
    NotEmitted(w, v4);
  }
}
