/**
  The stateless scan cursor of redisdict.c. Ordered by reversed bits, a cursor is a frontier: a call
  covers the rest of one block of hash values and returns the start of the next block, whatever the
  sizes of the tables are by then.
 */
module DictScan {
  import opened Basics
  import opened BitWords
  import opened DictTable
  import opened DictOps

  function Log2(n: nat): (k: nat)
    requires IsPow2(n)
    ensures Pow2(k) == n
  {
    if n == 1 then 0 else 1 + Log2(n / 2)
  }

  function Bits(t: Table): nat
    requires IsPow2(Size(t))
  {
    Log2(Size(t))
  }

  /** The hash of a key as a machine word. */
  function HashWord(h: Hasher, k: Key, w: nat): Word {
    FromNat(h(k), w)
  }

  /** v |= ~m0; v = rev(v); v++; v = rev(v) for a mask of `k` bits. */
  function NextCursor(v: Word, k: nat): Word {
    Reversed(Inc(Reversed(Or(v, Not(Mask(|v|, k))))))
  }

  /** v = (((v | m0) + 1) & ~m0) | (v & m0) for a mask of `k` bits. */
  function NextExpansion(v: Word, k: nat): Word {
    var m0 := Mask(|v|, k);
    Or(And(Inc(Or(v, m0)), Not(m0)), And(v, m0))
  }

  // ------------------------------------------------------------------ the cursor as a number

  /** Start of the block after the one `r` lies in, blocks being 2^(w-k) ranks long; 0 at the end. */
  function NextBlock(r: nat, w: nat, k: nat): nat
    requires k <= w
  {
    if (r / Pow2(w - k) + 1) * Pow2(w - k) == Pow2(w) then 0 else (r / Pow2(w - k) + 1) * Pow2(w - k)
  }

  lemma {:induction false} Pow2Add(a: nat, b: nat)
    ensures Pow2(a + b) == Pow2(a) * Pow2(b)
  {
    if a > 0 {
      Pow2Add(a - 1, b);
      Double(Pow2(a - 1), Pow2(b));
    }
  }

  lemma BlockEnd(b: nat, q: nat)
    ensures b + b * q == (q + 1) * b
  {
  }

  lemma OnesAbove(v: Word, k: nat)
    requires k <= |v|
    ensures Or(v, Not(Mask(|v|, k))) == v[..k] + Ones(|v| - k)
  {
  }

  lemma ROnes(w: nat)
    ensures R(Ones(w)) + 1 == Pow2(w)
  {
    assert Reversed(Ones(w)) == Ones(w);
    ValOnes(w);
  }

  /** With the bits above the mask set, a cursor is the last rank of its block. */
  lemma LastOfBlock(v: Word, k: nat)
    requires k <= |v|
    ensures var x := Or(v, Not(Mask(|v|, k)));
            |x| == |v| && R(x) + 1 == (R(v) / Pow2(|v| - k) + 1) * Pow2(|v| - k)
  {
    hide Val, Pow2, R, Or, Not, Mask, Ones, Reversed;
    var w := |v|;
    OnesAbove(v, k);
    RConcat(v[..k], Ones(w - k));
    ROnes(w - k);
    BlockOf(v, k);
    BlockEnd(Pow2(w - k), R(v[..k]));
  }

  /** The next cursor is the start of the next block of the smaller table. */
  lemma CursorIsNextBlock(v: Word, k: nat)
    requires k <= |v|
    ensures |NextCursor(v, k)| == |v|
    ensures R(NextCursor(v, k)) == NextBlock(R(v), |v|, k)
  {
    var x := Or(v, Not(Mask(|v|, k)));
    LastOfBlock(v, k);
    IncVal(Reversed(x));
    ReversedInvolutive(Inc(Reversed(x)));
    hide Val, Pow2;
    assert R(NextCursor(v, k)) == Val(Inc(Reversed(x)));
  }

  /** The inner loop counts up the bits above the smaller mask and keeps those below. */
  lemma ExpansionCountsUp(v: Word, k: nat)
    requires k <= |v|
    ensures NextExpansion(v, k) == v[..k] + Inc(v[k..])
  {
    var m0 := Mask(|v|, k);
    assert Or(v, m0) == Ones(k) + v[k..];
    IncConcat(Ones(k), v[k..]);
    assert Inc(Or(v, m0)) == Zeros(k) + Inc(v[k..]);
  }

  // ------------------------------------------------------------------ buckets visited

  /** The bits of the cursor between the smaller and the larger mask. */
  function Between(v: Word, k0: nat, k1: nat): Word
    requires k0 <= k1 <= |v|
  {
    v[k0..k1]
  }

  lemma BetweenCountsUp(v: Word, k0: nat, k1: nat)
    requires k0 <= k1 <= |v|
    ensures |NextExpansion(v, k0)| == |v| && NextExpansion(v, k0)[..k0] == v[..k0]
    ensures Between(NextExpansion(v, k0), k0, k1) == Inc(Between(v, k0, k1))
    ensures Val(Inc(Between(v, k0, k1))) == 0 || Val(Inc(Between(v, k0, k1))) == Val(Between(v, k0, k1)) + 1
    ensures Val(Inc(Between(v, k0, k1))) == 0 ==> Val(Between(v, k0, k1)) + 1 == Pow2(k1 - k0)
  {
    ExpansionCountsUp(v, k0);
    var mid := Between(v, k0, k1);
    assert v[k0..] == mid + v[k1..];
    IncConcat(mid, v[k1..]);
    IncVal(mid);
    ValBound(mid);
    if mid == Ones(|mid|) {
      ValOnes(|mid|);
      ValZeros(|mid|);
      ValInjective(Inc(mid), Zeros(|mid|));
    }
  }

  /** Buckets of the larger table that the do-while loop reads from cursor `v` on. */
  function Expansions(v: Word, k0: nat, k1: nat): seq<nat>
    requires k0 <= k1 <= |v|
    decreases Pow2(k1 - k0) - Val(v[k0..k1])
  {
    BetweenCountsUp(v, k0, k1);
    ValBound(v[k0..k1]);
    ValBound(NextExpansion(v, k0)[k0..k1]);
    var v' := NextExpansion(v, k0);
    [Val(v[..k1])] + (if Val(Between(v', k0, k1)) == 0 then [] else Expansions(v', k0, k1))
  }

  /** They are the expansions of the low bits that are not below the cursor in ordinary order. */
  lemma {:induction false} ExpansionsAre(v: Word, k0: nat, k1: nat, u: Word)
    requires k0 <= k1 <= |v| && |u| == k1
    ensures Val(u) in Expansions(v, k0, k1) <==> u[..k0] == v[..k0] && Val(u[k0..]) >= Val(v[k0..k1])
    decreases Pow2(k1 - k0) - Val(v[k0..k1])
  {
    var v', mid := NextExpansion(v, k0), v[k0..k1];
    BetweenCountsUp(v, k0, k1);
    ValBound(mid);
    ValBound(u[k0..]);
    ValBound(v'[k0..k1]);
    assert u == u[..k0] + u[k0..] && v[..k1] == v[..k0] + mid;
    if Val(u) == Val(v[..k1]) {
      ValInjective(u, v[..k1]);
      assert u[..k0] == v[..k0] && u[k0..] == mid;
    }
    if u[..k0] == v[..k0] && Val(u[k0..]) == Val(mid) {
      ValInjective(u[k0..], mid);
    }
    if Val(Between(v', k0, k1)) != 0 {
      ExpansionsAre(v', k0, k1, u);
    }
  }

  /** The bits between the masks are ones followed by zeros, from the low end. */
  predicate GoodCursor(v: Word, k0: nat, k1: nat)
    requires k0 <= k1 <= |v|
  {
    forall i: nat | k0 <= i && i + 1 < k1 :: v[i + 1] ==> v[i]
  }

  lemma {:induction false} GoodDown(v: Word, k0: nat, k1: nat, i: nat, j: nat)
    requires k0 <= k1 <= |v| && GoodCursor(v, k0, k1) && k0 <= i <= j < k1 && v[j]
    ensures v[i]
    decreases j - i
  {
    if i < j {
      assert v[j - 1 + 1] ==> v[j - 1];
      GoodDown(v, k0, k1, i, j - 1);
    }
  }

  /** Of two different words of equal length, the lowest differing bit. */
  lemma {:induction false} FirstDifference(x: Word, y: Word) returns (i: nat)
    requires |x| == |y| && x != y
    ensures i < |x| && x[..i] == y[..i] && x[i] != y[i]
  {
    i := 0;
    while i < |x| && x[i] == y[i]
      invariant i <= |x| && x[..i] == y[..i]
    {
      i := i + 1;
    }
  }

  lemma ZeroTail(a: Word, b: Word, i: nat)
    requires |a| == |b| && i <= |a| && a[..i] == b[..i] && forall j | i <= j < |a| :: !a[j]
    ensures Val(b) >= Val(a)
  {
    hide Val, Pow2, Zeros;
    assert a == a[..i] + Zeros(|a| - i) by { ZerosAre(|a| - i); }
    assert b == b[..i] + b[i..];
    ValConcat(a[..i], Zeros(|a| - i));
    ValConcat(b[..i], b[i..]);
    ValZeros(|a| - i);
    MulMonotone(0, Val(b[i..]), Pow2(i));
    Commute(Pow2(i), Val(b[i..]));
  }

  lemma ZerosAre(w: nat)
    ensures |Zeros(w)| == w && forall i | 0 <= i < w :: !Zeros(w)[i]
  {
  }

  /** A word that is not before `v` in reversed order has, between the masks of a good cursor, a value not below. */
  lemma GoodCoversBlock(v: Word, k0: nat, k1: nat, x: Word)
    requires k0 <= k1 <= |v| && |x| == |v| && GoodCursor(v, k0, k1)
    requires x[..k0] == v[..k0] && R(v) <= R(x)
    ensures Val(x[k0..k1]) >= Val(v[k0..k1])
  {
    hide R, Val, GoodCursor;
    var a, b := v[k0..k1], x[k0..k1];
    if a != b {
      var i := FirstDifference(a, b);
      PrefixInParts(v, k0, k1, i);
      PrefixInParts(x, k0, k1, i);
      if a[i] { RLess(x, v, k0 + i); }
      forall j: nat | i <= j < |a| ensures !a[j] {
        if v[k0 + j] { GoodDown(v, k0, k1, k0 + i, k0 + j); }
      }
      ZeroTail(a, b, i);
    }
  }

  /** How many of the lowest bits are ones. */
  function LowOnes(x: Word): (n: nat)
    ensures n <= |x| && x[..n] == Ones(n) && (n < |x| ==> !x[n])
  {
    if x == [] || !x[0] then 0
    else
      assert x[..1 + LowOnes(x[1..])] == [true] + x[1..][..LowOnes(x[1..])];
      1 + LowOnes(x[1..])
  }

  lemma {:induction false} LowOnesAre(x: Word)
    ensures forall j | 0 <= j < LowOnes(x) :: x[j]
  {
    var n := LowOnes(x);
    assert forall j | 0 <= j < n :: x[..n][j] == x[j];
  }

  /** The greatest bucket that the expansions from the cursor leave out although its block needs it. */
  function LastSkipped(v: Word, k0: nat, k1: nat): int
    requires k0 <= k1 <= |v|
  {
    Val(v[..k1]) - Pow2(k0 + LowOnes(v[k0..k1]))
  }

  lemma SkippedStep(l: nat, k0: nat, n: nat, a: nat, b: nat)
    requires b < a
    ensures l + Pow2(k0) * (Pow2(n) * b) + Pow2(k0 + n) <= l + Pow2(k0) * (Pow2(n) * a)
    ensures a == b + 1 ==> l + Pow2(k0) * (Pow2(n) * b) + Pow2(k0 + n) == l + Pow2(k0) * (Pow2(n) * a)
  {
    Pow2Add(k0, n);
    var p, q := Pow2(k0), Pow2(n);
    hide Pow2;
    assert p * (q * a) == p * (q * b) + p * q * (a - b);
    MulMonotone(1, a - b, p * q);
    Commute(a - b, p * q);
  }

  lemma Associate(p: nat, q: nat, z: nat)
    ensures (p * q) * z == p * (q * z)
  {
  }

  /** The value below the larger mask, taken apart at both ends of the low run of ones. */
  lemma ValInParts(v: Word, k0: nat, n: nat, k1: nat)
    requires k0 <= k0 + n <= k1 <= |v|
    ensures Val(v[..k1]) == Val(v[..k0 + n]) + Pow2(k0) * (Pow2(n) * Val(v[k0 + n..k1]))
    ensures Val(v[k0..k1]) == Val(v[k0..k0 + n]) + Pow2(n) * Val(v[k0 + n..k1])
  {
    hide Val, Pow2;
    assert v[..k1] == v[..k0 + n] + v[k0 + n..k1];
    ValConcat(v[..k0 + n], v[k0 + n..k1]);
    assert v[k0..k1] == v[k0..k0 + n] + v[k0 + n..k1];
    ValConcat(v[k0..k0 + n], v[k0 + n..k1]);
    Pow2Add(k0, n);
    Associate(Pow2(k0), Pow2(n), Val(v[k0 + n..k1]));
  }

  /** A later word of the block differs from the cursor above its low run of ones. */
  lemma SameLowOnes(v: Word, k0: nat, k1: nat, x: Word)
    requires k0 <= k1 <= |v| && |x| == |v| && x[..k0] == v[..k0]
    requires R(v) <= R(x) && x[k0..k1] != v[k0..k1]
    ensures var n := LowOnes(v[k0..k1]); x[..k0 + n] == v[..k0 + n] && x[k0..k0 + n] == v[k0..k0 + n]
  {
    hide R, LowOnes;
    var a, b := v[k0..k1], x[k0..k1];
    var n := LowOnes(a);
    var i := FirstDifference(a, b);
    PrefixInParts(v, k0, k1, i);
    PrefixInParts(x, k0, k1, i);
    if a[i] { RLess(x, v, k0 + i); }
    LowOnesAre(a);
    ShorterPrefix(v, x, k0, n, k0 + i);
  }

  lemma PrefixInParts(v: Word, k0: nat, k1: nat, i: nat)
    requires k0 <= k1 <= |v| && i < k1 - k0
    ensures v[..k0 + i] == v[..k0] + v[k0..k1][..i] && v[k0 + i] == v[k0..k1][i]
  {
  }

  lemma ShorterPrefix(v: Word, x: Word, k: nat, n: nat, m: nat)
    requires k + n <= m <= |v| && m <= |x| && v[..m] == x[..m]
    ensures v[..k + n] == x[..k + n] && v[k..k + n] == x[k..k + n]
  {
    assert v[..k + n] == v[..m][..k + n] && x[..k + n] == x[..m][..k + n];
    assert v[k..k + n] == v[..m][k..k + n] && x[k..k + n] == x[..m][k..k + n];
  }

  lemma SkippedAtMost(v: Word, k0: nat, k1: nat, x: Word)
    requires k0 <= k1 <= |v| && |x| == |v| && x[..k0] == v[..k0]
    requires R(v) <= R(x) && Val(x[k0..k1]) < Val(v[k0..k1])
    ensures Val(x[..k1]) <= LastSkipped(v, k0, k1)
  {
    hide Val, R, Pow2, LowOnes;
    var n := LowOnes(v[k0..k1]);
    SameLowOnes(v, k0, k1, x);
    ValInParts(v, k0, n, k1);
    ValInParts(x, k0, n, k1);
    var y, z := Val(x[k0 + n..k1]), Val(v[k0 + n..k1]);
    MulMonotone(z, y, Pow2(n));
    Commute(z, Pow2(n));
    Commute(y, Pow2(n));
    SkippedStep(Val(v[..k0 + n]), k0, n, z, y);
  }

  /** A bad cursor is overtaken: some later word of its block has a smaller value between the masks. */
  lemma BadSkipsBucket(v: Word, k0: nat, k1: nat) returns (x: Word)
    requires k0 <= k1 <= |v| && !GoodCursor(v, k0, k1)
    ensures |x| == |v| && x[..k0] == v[..k0] && R(v) < R(x) && Val(x[k0..k1]) < Val(v[k0..k1])
    ensures Val(x[..k1]) == LastSkipped(v, k0, k1)
    ensures forall j | k1 <= j < |v| :: !x[j]
  {
    hide Val, Pow2, R, GoodCursor;
    var n := LowOnes(v[k0..k1]);
    var m' := Decremented(v, k0, k1);
    var z := k0 + n;
    x := v[..z] + m' + Zeros(|v| - k1);
    assert x[..z] == v[..z] && x[z..k1] == m' && x[z] == m'[0] && !v[z] by { assert v[z] == v[k0..k1][n]; }
    RLess(v, x, z);
    assert x[..k0] == v[..k0] by { assert x[..k0] == x[..z][..k0] && v[..k0] == v[..z][..k0]; }
    assert x[k0..z] == v[k0..z] by { assert x[k0..z] == x[..z][k0..] && v[k0..z] == v[..z][k0..]; }
    ValInParts(v, k0, n, k1);
    ValInParts(x, k0, n, k1);
    var a, b := Val(v[z..k1]), Val(m');
    SkippedStep(Val(v[..z]), k0, n, a, b);
    SkippedStep(Val(v[k0..z]), 0, n, a, b);
  }

  /** Above the low run of ones something is left, and one less than that is odd. */
  lemma Decremented(v: Word, k0: nat, k1: nat) returns (m': Word)
    requires k0 <= k1 <= |v| && !GoodCursor(v, k0, k1)
    ensures var n := LowOnes(v[k0..k1]);
            && k0 + n < k1 && |m'| == k1 - k0 - n > 0 && m'[0]
            && Val(v[k0 + n..k1]) == Val(m') + 1
  {
    hide Val, LowOnes, FromNat;
    var a := v[k0..k1];
    var n := LowOnes(a);
    LowOnesAre(a);
    var i: nat :| k0 <= i && i + 1 < k1 && v[i + 1] && !v[i];
    assert a[i - k0] == v[i] && a[i + 1 - k0] == v[i + 1];
    var m := v[k0 + n..k1];
    assert m[i + 1 - k0 - n] && !m[0] by { assert m[0] == a[n]; }
    EvenLess(m, i + 1 - k0 - n);
    m' := FromNat(Val(m) - 1, |m|);
  }

  lemma FirstBit(n: nat, w: nat)
    requires w > 0
    ensures FromNat(n, w)[0] == (n % 2 == 1)
  {
  }

  lemma FirstBitOfVal(m: Word)
    requires m != []
    ensures Val(m) % 2 == 1 <==> m[0]
  {
  }

  lemma EvenLess(m: Word, j: nat)
    requires j < |m| && m[j] && !m[0]
    ensures Val(m) > 0 && Val(FromNat(Val(m) - 1, |m|)) == Val(m) - 1 && FromNat(Val(m) - 1, |m|)[0]
  {
    hide Val, Pow2, FromNat;
    FirstBitOfVal(m);
    assert m != Zeros(|m|);
    ValIsZero(m);
    ValBound(m);
    FromNatVal(Val(m) - 1, |m|);
    DivModUnique(Val(m) - 1, Pow2(|m|), 0, Val(m) - 1);
    FirstBit(Val(m) - 1, |m|);
  }

  // ------------------------------------------------------------------ one call

  function Small(d: Dict): Table { if Size(d.t0) > Size(d.t1) then d.t1 else d.t0 }
  function Large(d: Dict): Table { if Size(d.t0) > Size(d.t1) then d.t0 else d.t1 }

  /** The dictionary is sound and its masks fit in words of `w` bits. */
  ghost predicate Scannable(d: Dict, h: Hasher, w: nat) {
    Valid(d, h) && Size(d.t0) <= Pow2(w) && Size(d.t1) <= Pow2(w)
  }

  lemma TablesFit(d: Dict, h: Hasher, w: nat)
    requires Scannable(d, h, w) && (DictSize(d) > 0 || Rehashing(d))
    ensures Size(d.t0) > 0 && IsPow2(Size(d.t0)) && Bits(d.t0) <= w
    ensures Rehashing(d) ==> IsPow2(Size(d.t1)) && Bits(d.t1) <= w && Bits(Small(d)) <= Bits(Large(d))
  {
    TotalLenZero(d.t0.buckets);
    Pow2Monotone(Bits(d.t0), w);
    if Rehashing(d) {
      Pow2Monotone(Bits(d.t1), w);
      Pow2Monotone(Bits(Small(d)), Bits(Large(d)));
    }
  }

  function Collect(bs: Buckets, js: seq<nat>): Chain {
    if js == [] then [] else (if js[0] < |bs| then bs[js[0]] else []) + Collect(bs, js[1..])
  }

  lemma {:induction false} CollectHas(bs: Buckets, js: seq<nat>, e: Entry)
    ensures e in Collect(bs, js) <==> exists j :: j in js && j < |bs| && e in bs[j]
  {
    if js != [] {
      CollectHas(bs, js[1..], e);
      assert js == [js[0]] + js[1..];
    }
  }

  /** The entries passed to the callback, in order. */
  ghost function ScanEmits(d: Dict, h: Hasher, v: Word): Chain
    requires Scannable(d, h, |v|)
  {
    if DictSize(d) == 0 then []
    else
      TablesFit(d, h, |v|);
      if !Rehashing(d) then Collect(d.t0.buckets, [Val(v[..Bits(d.t0)])])
      else
        Collect(Small(d).buckets, [Val(v[..Bits(Small(d))])]) +
        Collect(Large(d).buckets, Expansions(v, Bits(Small(d)), Bits(Large(d))))
  }

  ghost function ScanMask(d: Dict, h: Hasher, w: nat): (k: nat)
    requires Scannable(d, h, w) && (DictSize(d) > 0 || Rehashing(d))
    ensures k <= w
  {
    TablesFit(d, h, w);
    if Rehashing(d) then Bits(Small(d)) else Bits(d.t0)
  }

  ghost function ScanNext(d: Dict, h: Hasher, v: Word): Word
    requires Scannable(d, h, |v|)
  {
    if DictSize(d) == 0 then Zeros(|v|) else NextCursor(v, ScanMask(d, h, |v|))
  }

  /**
    What a caller can check before a call. With one table nothing; with two, that the bits of the cursor
    between the masks are good, or that the table shrinks and the last bucket that the call skips has
    been migrated.
   */
  ghost predicate GoodCall(d: Dict, h: Hasher, v: Word)
    requires Scannable(d, h, |v|)
  {
    Rehashing(d) ==>
      (TablesFit(d, h, |v|);
       var k0, k1 := Bits(Small(d)), Bits(Large(d));
       GoodCursor(v, k0, k1) || (Size(d.t0) > Size(d.t1) && LastSkipped(v, k0, k1) < d.rehashidx))
  }

  /** A rank lies in the block from `r` on exactly if its leading bits are those of the cursor. */
  lemma SameBlock(v: Word, x: Word, k: nat)
    requires k <= |v| && |x| == |v|
    ensures R(v) <= R(x) && (NextBlock(R(v), |v|, k) == 0 || R(x) < NextBlock(R(v), |v|, k)) ==> x[..k] == v[..k]
    ensures x[..k] == v[..k] ==> NextBlock(R(v), |v|, k) == 0 || R(x) < NextBlock(R(v), |v|, k)
  {
    BlockOf(v, k);
    BlockOf(x, k);
    RBound(x);
    if x[..k] != v[..k] && R(x[..k]) == R(v[..k]) { RInjective(x[..k], v[..k]); }
    hide R, Pow2;
    BlockArithmetic(R(v), R(x), Pow2(|v| - k), Pow2(|v|));
  }

  lemma BlockArithmetic(r: nat, s: nat, b: nat, p: nat)
    requires b > 0 && s < p
    ensures r <= s && ((r / b + 1) * b == p || s < (r / b + 1) * b) ==> s / b == r / b
    ensures s / b == r / b ==> s < (r / b + 1) * b
  {
    hide Pow2;
    var q, t := r / b, s / b;
    if r <= s { DivMonotone(r, s, b); }
    MulMonotone(q + 1, t, b);
    assert s == t * b + s % b;
    assert (t + 1) * b == t * b + b;
  }

  lemma HashBucket(h: Hasher, k: Key, w: nat, bits: nat)
    requires bits <= w
    ensures Val(HashWord(h, k, w)[..bits]) == h(k) % Pow2(bits)
  {
    FromNatPrefix(h(k), w, bits);
    FromNatVal(h(k), bits);
  }

  /** Every entry from the cursor to the next one is passed to the callback. */
  lemma CallCovers(d: Dict, h: Hasher, v: Word, k: Key)
    requires Scannable(d, h, |v|) && Get(d, h, k).Some? && GoodCall(d, h, v)
    requires R(v) <= R(HashWord(h, k, |v|))
    requires R(ScanNext(d, h, v)) == 0 || R(HashWord(h, k, |v|)) < R(ScanNext(d, h, v))
    ensures Get(d, h, k).value in ScanEmits(d, h, v)
  {
    hide R, Val, Pow2, NextCursor, GoodCursor, LastSkipped, Expansions, Collect, FromNat;
    var x, e := HashWord(h, k, |v|), Get(d, h, k).value;
    NotEmpty(d, h, k);
    TablesFit(d, h, |v|);
    var k0 := ScanMask(d, h, |v|);
    CursorIsNextBlock(v, k0);
    SameBlock(v, x, k0);
    assert x[..k0] == v[..k0];
    HashBucket(h, k, |v|, k0);
    TableGetIn(d.t0, h, k);
    TableGetIn(d.t1, h, k);
    if !Rehashing(d) {
      CollectHas(d.t0.buckets, [Val(v[..k0])], e);
    } else {
      var k1 := Bits(Large(d));
      if Val(x[k0..k1]) < Val(v[k0..k1]) {
        SkippedAtMost(v, k0, k1, x);
        if GoodCursor(v, k0, k1) { GoodCoversBlock(v, k0, k1, x); }
      }
      HashBucket(h, k, |v|, k1);
      PrefixParts(x, k0, k1);
      ExpansionsAre(v, k0, k1, x[..k1]);
      CollectHas(Small(d).buckets, [Val(v[..k0])], e);
      CollectHas(Large(d).buckets, Expansions(v, k0, k1), e);
    }
  }

  lemma NotEmpty(d: Dict, h: Hasher, k: Key)
    requires Valid(d, h) && Get(d, h, k).Some?
    ensures DictSize(d) > 0
  {
    TableGetIn(d.t0, h, k);
    TableGetIn(d.t1, h, k);
    TotalLenZero(d.t0.buckets);
    TotalLenZero(d.t1.buckets);
  }

  /** The rank of a hash value lies from the cursor on, within the cursor's block. */
  predicate InBlock(v: Word, k: nat, hash: Hash)
    requires k <= |v|
  {
    R(v) <= R(FromNat(hash, |v|)) &&
    (NextBlock(R(v), |v|, k) == 0 || R(FromNat(hash, |v|)) < NextBlock(R(v), |v|, k))
  }

  /** With two tables a call covers all of its block of the larger one exactly from a good cursor. */
  lemma CoverageIsGoodCursor(v: Word, k0: nat, k1: nat)
    requires k0 <= k1 <= 32 <= |v|
    ensures GoodCursor(v, k0, k1) <==>
            forall hash: Hash :: InBlock(v, k0, hash) ==> hash % Pow2(k1) in Expansions(v, k0, k1)
  {
    if GoodCursor(v, k0, k1) {
      forall hash: Hash | InBlock(v, k0, hash) ensures hash % Pow2(k1) in Expansions(v, k0, k1) {
        var x := FromNat(hash, |v|);
        SameBlock(v, x, k0);
        GoodCoversBlock(v, k0, k1, x);
        BucketVisited(v, k0, k1, hash);
      }
    } else {
      var x := BadSkipsBucket(v, k0, k1);
      SameBlock(v, x, k0);
      var hash := SmallValue(x, k1);
      BucketVisited(v, k0, k1, hash);
      assert InBlock(v, k0, hash);
    }
  }

  lemma WordSize()
    ensures Pow2(32) == 0x1_0000_0000
  {
    assert Pow2(4) == 16;
    hide Pow2;
    Pow2Add(4, 4);
    Pow2Add(8, 8);
    Pow2Add(16, 16);
  }

  /** A word without bits from `k` on is a hash value. */
  lemma SmallValue(x: Word, k: nat) returns (hash: Hash)
    requires k <= 32 <= |x| && forall j | k <= j < |x| :: !x[j]
    ensures FromNat(hash, |x|) == x
  {
    hide Val, Pow2;
    assert x == x[..k] + Zeros(|x| - k);
    ValConcat(x[..k], Zeros(|x| - k));
    ValZeros(|x| - k);
    ValBound(x[..k]);
    Pow2Monotone(k, 32);
    WordSize();
    hash := Val(x);
    FromNatOfVal(x);
  }

  lemma PrefixParts(x: Word, k0: nat, k1: nat)
    requires k0 <= k1 <= |x|
    ensures x[..k1][..k0] == x[..k0] && x[..k1][k0..] == x[k0..k1]
  {
  }

  lemma BucketVisited(v: Word, k0: nat, k1: nat, hash: Hash)
    requires k0 <= k1 <= |v|
    ensures var x := FromNat(hash, |v|);
            hash % Pow2(k1) in Expansions(v, k0, k1) <==> x[..k0] == v[..k0] && Val(x[k0..k1]) >= Val(v[k0..k1])
  {
    hide Val, FromNat, Expansions, Pow2;
    var x := FromNat(hash, |v|);
    FromNatPrefix(hash, |v|, k1);
    FromNatVal(hash, k1);
    PrefixParts(x, k0, k1);
    ExpansionsAre(v, k0, k1, x[..k1]);
  }

  // ------------------------------------------------------------------ whole scans

  /** `d'` is `d` after some operations, of whatever kind. */
  ghost predicate Evolves(d: Dict, h: Hasher, ops: seq<Op>, d': Dict)
    requires Valid(d, h)
    decreases |ops|
  {
    if ops == [] then d' == d
    else Fits(d, ops[0]) && (ApplyKeeps(d, h, ops[0]); Evolves(Apply(d, h, ops[0]), h, ops[1..], d'))
  }

  /**
    A scan of `|ds|` calls from cursor 0 until 0 is returned; between two calls any operations run,
    rehash steps and resizes in either direction included.
   */
  ghost predicate ScanRun(h: Hasher, w: nat, ds: seq<Dict>, vs: seq<Word>, ops: seq<seq<Op>>) {
    && |ds| > 0 && |vs| == |ds| + 1 && |ops| == |ds| - 1
    && (forall i | 0 <= i < |ds| :: Scannable(ds[i], h, w))
    && (forall i | 0 <= i < |vs| :: |vs[i]| == w)
    && (forall i | 0 <= i < |ops| :: Evolves(ds[i], h, ops[i], ds[i + 1]))
    && vs[0] == Zeros(w) && vs[|ds|] == Zeros(w)
    && (forall i | 0 <= i < |ds| :: vs[i + 1] == ScanNext(ds[i], h, vs[i]))
  }

  /** The call whose block a hash word falls into. */
  lemma {:induction false} CallOf(h: Hasher, w: nat, ds: seq<Dict>, vs: seq<Word>, ops: seq<seq<Op>>, r: nat, from: nat)
    returns (i: nat)
    requires ScanRun(h, w, ds, vs, ops) && from < |ds| && R(vs[from]) <= r
    ensures i < |ds| && R(vs[i]) <= r && (R(vs[i + 1]) == 0 || r < R(vs[i + 1]))
    decreases |ds| - from
  {
    if R(vs[from + 1]) == 0 || r < R(vs[from + 1]) {
      i := from;
    } else {
      assert from + 1 < |ds| by {
        if from + 1 == |ds| { RZeros(w); }
      }
      i := CallOf(h, w, ds, vs, ops, r, from + 1);
    }
  }

  lemma RZeros(w: nat)
    ensures R(Zeros(w)) == 0
  {
    assert Reversed(Zeros(w)) == Zeros(w);
    ValZeros(w);
  }

  /**
    A key that is in the dictionary at every call of a scan is passed to the callback at one of them,
    however the tables were resized in between, if every call made with two tables is a good one.
   */
  lemma ScanMissesNothing(h: Hasher, w: nat, ds: seq<Dict>, vs: seq<Word>, ops: seq<seq<Op>>, k: Key)
    requires ScanRun(h, w, ds, vs, ops)
    requires forall i | 0 <= i < |ds| :: GoodCall(ds[i], h, vs[i]) && Get(ds[i], h, k).Some?
    ensures exists i :: 0 <= i < |ds| && Get(ds[i], h, k).value in ScanEmits(ds[i], h, vs[i])
  {
    RZeros(w);
    var i := CallOf(h, w, ds, vs, ops, R(HashWord(h, k, w)), 0);
    CallCovers(ds[i], h, vs[i], k);
  }

  // ------------------------------------------------------------------ an unchanging dictionary

  /** The cursor after `n` calls on an unchanging dictionary. */
  ghost function Cursor(d: Dict, h: Hasher, v: Word, n: nat): (c: Word)
    requires Scannable(d, h, |v|)
    ensures |c| == |v|
  {
    if n == 0 then v
    else
      var c := Cursor(d, h, v, n - 1);
      if DictSize(d) > 0 then CursorIsNextBlock(c, ScanMask(d, h, |v|)); ScanNext(d, h, c) else ScanNext(d, h, c)
  }

  /** The cursor after block `p` is the start of block p + 1, or 0 after the last block. */
  lemma NextOfBlock(c: Word, k: nat)
    requires k <= |c|
    ensures var p, c' := R(c[..k]), NextCursor(c, k);
            && |c'| == |c|
            && if p + 1 == Pow2(k) then c' == Zeros(|c|)
               else c' != Zeros(|c|) && R(c') == (p + 1) * Pow2(|c| - k) && R(c'[..k]) == p + 1
  {
    var w := |c|;
    var b, p, c' := Pow2(w - k), R(c[..k]), NextCursor(c, k);
    BlockOf(c, k);
    CursorIsNextBlock(c, k);
    Pow2Add(w - k, k);
    RZeros(w);
    hide R, Pow2, Val, NextCursor;
    LastBlock(p, b, Pow2(k));
    if p + 1 == Pow2(k) {
      RInjective(c', Zeros(w));
    } else {
      BlockOf(c', k);
      DivModUnique((p + 1) * b, b, p + 1, 0);
    }
  }

  lemma LastBlock(p: nat, b: nat, n: nat)
    requires b > 0
    ensures (p + 1) * b == b * n <==> p + 1 == n
    ensures (p + 1) * b > 0
  {
    MulMonotone(p + 2, n, b);
    MulMonotone(n + 1, p + 1, b);
    Commute(b, n);
    assert (p + 2) * b == (p + 1) * b + b && (n + 1) * b == n * b + b;
  }

  /** From block `q` on, the n-th cursor is the start of block q + n, and after the last block it is 0. */
  lemma {:induction false} CursorBlocks(d: Dict, h: Hasher, v: Word, n: nat)
    requires Scannable(d, h, |v|) && DictSize(d) > 0
    requires var k := ScanMask(d, h, |v|); n <= Pow2(k) - R(v[..k])
    ensures var k := ScanMask(d, h, |v|);
            var c := Cursor(d, h, v, n);
            if n > 0 && R(v[..k]) + n == Pow2(k) then c == Zeros(|v|)
            else R(c[..k]) == R(v[..k]) + n && (n > 0 ==> c != Zeros(|v|))
  {
    hide R, Pow2, Val, NextCursor, ScanMask;
    if n > 0 {
      CursorBlocks(d, h, v, n - 1);
      NextOfBlock(Cursor(d, h, v, n - 1), ScanMask(d, h, |v|));
    }
  }

  /** The bucket that the n-th call of a scan reads. */
  ghost function BucketAt(d: Dict, h: Hasher, w: nat, n: nat): nat
    requires Scannable(d, h, w) && DictSize(d) > 0
  {
    Val(Cursor(d, h, Zeros(w), n)[..ScanMask(d, h, w)])
  }

  /** On an unchanging dictionary with one non-empty table, a scan returns 0 after exactly one call per bucket. */
  lemma StableScanEnds(d: Dict, h: Hasher, w: nat)
    requires Scannable(d, h, w) && DictSize(d) > 0 && !Rehashing(d)
    ensures Cursor(d, h, Zeros(w), Size(d.t0)) == Zeros(w)
    ensures forall n: nat | 1 <= n < Size(d.t0) :: Cursor(d, h, Zeros(w), n) != Zeros(w)
  {
    TablesFit(d, h, w);
    var k, z := ScanMask(d, h, w), Zeros(w);
    assert z[..k] == Zeros(k);
    RZeros(k);
    forall n: nat | 1 <= n <= Pow2(k) ensures n < Pow2(k) ==> Cursor(d, h, z, n) != z {
      CursorBlocks(d, h, z, n);
    }
    CursorBlocks(d, h, z, Pow2(k));
  }

  /** Each bucket is read by exactly one of those calls. */
  lemma StableScanReadsOnce(d: Dict, h: Hasher, w: nat, b: nat) returns (n: nat)
    requires Scannable(d, h, w) && DictSize(d) > 0 && !Rehashing(d) && b < Size(d.t0)
    ensures n < Size(d.t0) && BucketAt(d, h, w, n) == b
    ensures forall m: nat | m < Size(d.t0) && m != n :: BucketAt(d, h, w, m) != b
  {
    TablesFit(d, h, w);
    var k, z := ScanMask(d, h, w), Zeros(w);
    var u := FromNat(b, k);
    FromNatVal(b, k);
    DivModUnique(b, Pow2(k), 0, b);
    RBound(u);
    n := R(u);
    assert z[..k] == Zeros(k);
    RZeros(k);
    CursorBlocks(d, h, z, n);
    RInjective(Cursor(d, h, z, n)[..k], u);
    forall m: nat | m < Pow2(k) && m != n ensures BucketAt(d, h, w, m) != b {
      CursorBlocks(d, h, z, m);
      if BucketAt(d, h, w, m) == b { ValInjective(Cursor(d, h, z, m)[..k], u); }
    }
  }
}
