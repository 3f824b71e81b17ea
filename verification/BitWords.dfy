/**
  Machine words as sequences of bits, least significant first, of any width: the C operators that
  redisdict.c's scan cursor uses, their values as numbers, and the parallel bit reversal.
 */
module BitWords {
  import opened Basics

  type Word = seq<bool>

  function Bit(b: bool): nat {
    if b then 1 else 0
  }

  /** The number a word stands for. */
  function Val(x: Word): nat {
    if x == [] then 0 else Bit(x[0]) + 2 * Val(x[1..])
  }

  /** The word of width `w` that holds `n` modulo 2^w. */
  function FromNat(n: nat, w: nat): (x: Word)
    ensures |x| == w
  {
    if w == 0 then [] else [n % 2 == 1] + FromNat(n / 2, w - 1)
  }

  function Zeros(w: nat): Word { seq(w, i => false) }
  function Ones(w: nat): Word { seq(w, i => true) }

  /** size - 1 for a table of 2^k buckets. */
  function Mask(w: nat, k: nat): Word { seq(w, i => i < k) }

  function And(x: Word, y: Word): (z: Word)
    requires |x| == |y|
    ensures |z| == |x|
  {
    seq(|x|, i requires 0 <= i < |x| => x[i] && y[i])
  }

  function Or(x: Word, y: Word): (z: Word)
    requires |x| == |y|
    ensures |z| == |x|
  {
    seq(|x|, i requires 0 <= i < |x| => x[i] || y[i])
  }

  function Xor(x: Word, y: Word): (z: Word)
    requires |x| == |y|
    ensures |z| == |x|
  {
    seq(|x|, i requires 0 <= i < |x| => x[i] != y[i])
  }

  function Not(x: Word): (z: Word)
    ensures |z| == |x|
  {
    seq(|x|, i requires 0 <= i < |x| => !x[i])
  }

  function Shl(x: Word, s: nat): (z: Word)
    ensures |z| == |x|
  {
    seq(|x|, i requires 0 <= i < |x| => i >= s && x[i - s])
  }

  function Shr(x: Word, s: nat): (z: Word)
    ensures |z| == |x|
  {
    seq(|x|, i requires 0 <= i < |x| => i + s < |x| && x[i + s])
  }

  /** Adding one, with wrap-around. */
  function Inc(x: Word): (y: Word)
    ensures |y| == |x|
  {
    if x == [] then [] else if x[0] then [false] + Inc(x[1..]) else [true] + x[1..]
  }

  /** The word with its bits in the opposite order. */
  function Reversed(x: Word): Word {
    seq(|x|, i requires 0 <= i < |x| => x[|x| - 1 - i])
  }

  /** The rank of a word when words are ordered by their reversed bits. */
  function R(x: Word): nat {
    Val(Reversed(x))
  }

  // ------------------------------------------------------------------ values

  lemma {:induction false} ValBound(x: Word)
    ensures Val(x) < Pow2(|x|)
  {
    if x != [] { ValBound(x[1..]); }
  }

  lemma Double(p: nat, v: nat)
    ensures 2 * (p * v) == (2 * p) * v
  {
  }

  lemma MulMonotone(a: nat, b: nat, d: nat)
    ensures a <= b ==> a * d <= b * d
  {
  }

  lemma {:induction false} ValConcat(x: Word, y: Word)
    ensures Val(x + y) == Val(x) + Pow2(|x|) * Val(y)
  {
    if x == [] {
      assert x + y == y;
    } else {
      assert (x + y)[1..] == x[1..] + y;
      ValConcat(x[1..], y);
      Double(Pow2(|x| - 1), Val(y));
    }
  }

  lemma {:induction false} ValZeros(w: nat)
    ensures Val(Zeros(w)) == 0
  {
    if w > 0 {
      assert Zeros(w)[1..] == Zeros(w - 1);
      ValZeros(w - 1);
    }
  }

  lemma {:induction false} ValIsZero(x: Word)
    ensures Val(x) == 0 <==> x == Zeros(|x|)
  {
    ValZeros(|x|);
    if x != [] {
      ValIsZero(x[1..]);
      assert Zeros(|x|)[1..] == Zeros(|x| - 1);
      if Val(x) == 0 {
        assert x == [x[0]] + x[1..];
        assert Zeros(|x|) == [false] + Zeros(|x| - 1);
      }
    }
  }

  lemma {:induction false} ValOnes(w: nat)
    ensures Val(Ones(w)) + 1 == Pow2(w)
  {
    if w > 0 {
      assert Ones(w)[1..] == Ones(w - 1);
      ValOnes(w - 1);
    }
  }

  lemma {:induction false} ValInjective(x: Word, y: Word)
    requires |x| == |y| && Val(x) == Val(y)
    ensures x == y
  {
    if x != [] {
      ValInjective(x[1..], y[1..]);
      assert x == [x[0]] + x[1..] && y == [y[0]] + y[1..];
    }
  }

  lemma {:induction false} IncVal(x: Word)
    ensures Val(Inc(x)) == if Val(x) + 1 == Pow2(|x|) then 0 else Val(x) + 1
  {
    if x != [] {
      IncVal(x[1..]);
      assert Inc(x)[1..] == if x[0] then Inc(x[1..]) else x[1..];
      ValBound(x[1..]);
    }
  }

  lemma IncCons(b: bool, t: Word)
    ensures Inc([b] + t) == if b then [false] + Inc(t) else [true] + t
  {
    assert ([b] + t)[1..] == t;
  }

  lemma {:induction false} IncOnes(n: nat, y: Word)
    ensures Inc(Ones(n) + y) == Zeros(n) + Inc(y)
  {
    if n == 0 {
      assert Ones(0) + y == y && Zeros(0) + Inc(y) == Inc(y);
    } else {
      IncOnes(n - 1, y);
      assert Ones(n) + y == [true] + (Ones(n - 1) + y);
      IncCons(true, Ones(n - 1) + y);
      assert Zeros(n) + Inc(y) == [false] + (Zeros(n - 1) + Inc(y));
    }
  }

  lemma {:induction false} IncZeroBit(x: Word, y: Word, i: nat)
    requires i < |x| && !x[i]
    ensures Inc(x + y) == Inc(x) + y
  {
    var t := x[1..];
    assert x == [x[0]] + t;
    assert x + y == [x[0]] + (t + y);
    IncCons(x[0], t);
    IncCons(x[0], t + y);
    hide Inc;
    if x[0] {
      IncZeroBit(t, y, i - 1);
      assert [false] + (Inc(t) + y) == ([false] + Inc(t)) + y;
    } else {
      assert [true] + (t + y) == ([true] + t) + y;
    }
  }

  lemma IncConcat(x: Word, y: Word)
    ensures Inc(x + y) == if x == Ones(|x|) then Zeros(|x|) + Inc(y) else Inc(x) + y
  {
    hide Inc;
    if x == Ones(|x|) {
      IncOnes(|x|, y);
    } else {
      var i :| 0 <= i < |x| && x[i] != Ones(|x|)[i];
      IncZeroBit(x, y, i);
    }
  }

  lemma {:induction false} FromNatPrefix(n: nat, w: nat, k: nat)
    requires k <= w
    ensures FromNat(n, w)[..k] == FromNat(n, k)
  {
    if k > 0 {
      FromNatPrefix(n / 2, w - 1, k - 1);
      assert FromNat(n, w)[..k] == [n % 2 == 1] + FromNat(n / 2, w - 1)[..k - 1];
    }
  }

  lemma {:induction false} FromNatVal(n: nat, w: nat)
    ensures Val(FromNat(n, w)) == n % Pow2(w)
  {
    if w > 0 {
      FromNatVal(n / 2, w - 1);
      assert FromNat(n, w)[1..] == FromNat(n / 2, w - 1);
      var p := Pow2(w - 1);
      ModDouble(n, p);
    }
  }

  lemma ModDouble(n: nat, p: nat)
    requires p > 0
    ensures n % (2 * p) == n % 2 + 2 * (n / 2 % p)
  {
    var q, r := n / 2 / p, n / 2 % p;
    assert n == 2 * (q * p + r) + n % 2;
    assert n == q * (2 * p) + (2 * r + n % 2) by { assert 2 * (q * p) == q * (2 * p); }
    DivModUnique(n, 2 * p, q, 2 * r + n % 2);
  }

  lemma DivModUnique(n: nat, d: nat, q: nat, r: nat)
    requires d > 0 && n == q * d + r && r < d
    ensures n / d == q && n % d == r
  {
    var q', r' := n / d, n % d;
    assert n == q' * d + r';
    MulMonotone(q' + 1, q, d);
    MulMonotone(q + 1, q', d);
  }

  lemma {:induction false} FromNatOfVal(x: Word)
    ensures FromNat(Val(x), |x|) == x
  {
    if x != [] {
      FromNatOfVal(x[1..]);
      assert Val(x) / 2 == Val(x[1..]) && Val(x) % 2 == Bit(x[0]);
      assert x == [x[0]] + x[1..];
    }
  }

  // ------------------------------------------------------------------ masks

  /** Masking keeps the low bits; the bucket of a hash is its remainder by the table size. */
  lemma MaskIsMod(n: nat, w: nat, k: nat)
    requires k <= w
    ensures Val(And(FromNat(n, w), Mask(w, k))) == n % Pow2(k)
  {
    MaskKeepsLow(FromNat(n, w), k);
    FromNatPrefix(n, w, k);
    FromNatVal(n, k);
  }

  lemma MaskKeepsLow(x: Word, k: nat)
    requires k <= |x|
    ensures And(x, Mask(|x|, k)) == x[..k] + Zeros(|x| - k)
    ensures Val(And(x, Mask(|x|, k))) == Val(x[..k])
  {
    assert And(x, Mask(|x|, k)) == x[..k] + Zeros(|x| - k);
    ValConcat(x[..k], Zeros(|x| - k));
    ValZeros(|x| - k);
  }

  lemma MaskIsSizeMinusOne(w: nat, k: nat)
    requires k <= w
    ensures FromNat(Pow2(k) - 1, w) == Mask(w, k)
  {
    var m := Mask(w, k);
    assert m == Ones(k) + Zeros(w - k);
    ValConcat(Ones(k), Zeros(w - k));
    ValOnes(k);
    ValZeros(w - k);
    FromNatOfVal(m);
  }

  // ------------------------------------------------------------------ reversal

  lemma ReversedConcat(x: Word, y: Word)
    ensures Reversed(x + y) == Reversed(y) + Reversed(x)
  {
  }

  lemma ReversedInvolutive(x: Word)
    ensures Reversed(Reversed(x)) == x
  {
  }

  lemma RConcat(x: Word, y: Word)
    ensures R(x + y) == R(y) + Pow2(|y|) * R(x)
  {
    ReversedConcat(x, y);
    ValConcat(Reversed(y), Reversed(x));
  }

  lemma RBound(x: Word)
    ensures R(x) < Pow2(|x|)
  {
    ValBound(Reversed(x));
  }

  /** In reversed order the low `k` bits are the leading ones: they name the block of a word. */
  lemma BlockOf(x: Word, k: nat)
    requires k <= |x|
    ensures R(x) / Pow2(|x| - k) == R(x[..k])
    ensures R(x) % Pow2(|x| - k) == R(x[k..])
  {
    hide R, Val, Pow2;
    assert x == x[..k] + x[k..];
    RConcat(x[..k], x[k..]);
    RBound(x[k..]);
    var b, q, r := Pow2(|x| - k), R(x[..k]), R(x[k..]);
    Commute(b, q);
    DivModUnique(R(x), b, q, r);
  }

  lemma Commute(a: nat, b: nat)
    ensures a * b == b * a
  {
  }

  lemma RInjective(x: Word, y: Word)
    requires |x| == |y| && R(x) == R(y)
    ensures x == y
  {
    ValInjective(Reversed(x), Reversed(y));
    ReversedInvolutive(x);
    ReversedInvolutive(y);
  }

  lemma RSnoc(a: Word)
    ensures R(a + [true]) == R(a + [false]) + 1
  {
    RConcat(a, [false]);
    RConcat(a, [true]);
    assert Reversed([false]) == [false] && Reversed([true]) == [true];
    assert Pow2(1) == 2 && R([false]) == 0 && R([true]) == 1;
  }

  /** In reversed order the lowest differing bit decides. */
  lemma RLess(x: Word, y: Word, i: nat)
    requires |x| == |y| && i < |x| && x[..i] == y[..i] && !x[i] && y[i]
    ensures R(x) < R(y)
  {
    var a, n := x[..i], |x| - i - 1;
    assert x == (a + [false]) + x[i + 1..] && y == (a + [true]) + y[i + 1..];
    RConcat(a + [false], x[i + 1..]);
    RConcat(a + [true], y[i + 1..]);
    RSnoc(a);
    RBound(x[i + 1..]);
    hide R, Val, Pow2;
    MulMonotone(R(a + [false]) + 1, R(a + [true]), Pow2(n));
    Commute(Pow2(n), R(a + [false]));
    Commute(Pow2(n), R(a + [true]));
  }

  lemma DivMonotone(a: nat, b: nat, d: nat)
    requires a <= b && d > 0
    ensures a / d <= b / d
  {
    MulMonotone(b / d + 1, a / d, d);
  }

  function Quot(n: nat, d: nat): nat
    requires d > 0
  {
    n / d
  }

  function Rem(n: nat, d: nat): nat
    requires d > 0
  {
    n % d
  }

  lemma QuotRem(n: nat, d: nat)
    requires d > 0
    ensures n == Quot(n, d) * d + Rem(n, d) && Rem(n, d) < d
  {
  }

  lemma QuotRemUnique(n: nat, d: nat, q: nat, r: nat)
    requires d > 0 && n == q * d + r && r < d
    ensures Quot(n, d) == q && Rem(n, d) == r
  {
    DivModUnique(n, d, q, r);
  }

  /** Where bit `i` comes from when blocks of `s` bits are in opposite order, each kept as it is. */
  function Source(w: nat, s: nat, i: nat): int
    requires s > 0
  {
    (Quot(w, s) - 1 - Quot(i, s)) * s + Rem(i, s)
  }

  /** Every other block of `s` bits, from the lowest on. */
  predicate Stripe(s: nat, i: nat)
    requires s > 0
  {
    Quot(i, s) % 2 == 0
  }

  lemma Distribute(c: int, e: int, t: nat)
    ensures (2 * c + e) * t == c * (2 * t) + e * t
  {
  }

  /** Dividing by 2t is dividing by t and then by two. */
  lemma QuotTwice(i: nat, t: nat)
    requires t > 0
    ensures Quot(i, 2 * t) == Quot(i, t) / 2
    ensures Rem(i, 2 * t) == (if Quot(i, t) % 2 == 0 then 0 else t) + Rem(i, t)
  {
    hide Quot, Rem;
    QuotRem(i, t);
    var q, r := Quot(i, t), Rem(i, t);
    if q % 2 == 0 {
      Distribute(q / 2, 0, t);
      QuotRemUnique(i, 2 * t, q / 2, r);
    } else {
      Distribute(q / 2, 1, t);
      QuotRemUnique(i, 2 * t, q / 2, t + r);
    }
  }

  lemma QuotShift(i: nat, t: nat)
    requires t > 0
    ensures Quot(i + t, t) == Quot(i, t) + 1 && Rem(i + t, t) == Rem(i, t)
  {
    hide Quot, Rem;
    QuotRem(i, t);
    var q := Quot(i, t);
    assert (q + 1) * t == q * t + t;
    QuotRemUnique(i + t, t, q + 1, Rem(i, t));
  }

  lemma QuotAtLeast(i: nat, t: nat, n: nat)
    requires t > 0
    ensures i >= n * t <==> Quot(i, t) >= n
  {
    hide Quot, Rem;
    QuotRem(i, t);
    MulMonotone(Quot(i, t) + 1, n, t);
    MulMonotone(n, Quot(i, t), t);
    assert (Quot(i, t) + 1) * t == Quot(i, t) * t + t;
  }

  /** Swapping neighbouring half blocks turns reversal by blocks of 2t bits into one by t bits. */
  /** The block that a stripe of the finer mask belongs to, counted from the other end. */
  lemma HalveEven(n: nat, t: nat, i: nat)
    requires t > 0 && n % 2 == 0 && Quot(i, t) < n && Quot(i, t) % 2 == 0
    ensures Source(n * t, 2 * t, i + t) == Source(n * t, t, i) && i + t < n * t
  {
    hide Quot, Rem;
    var q := Quot(i, t);
    QuotRemUnique(n * t, t, n, 0);
    QuotTwice(n * t, t);
    QuotShift(i, t);
    QuotTwice(i + t, t);
    QuotAtLeast(i + t, t, n);
    Distribute(n / 2 - 1 - q / 2, 1, t);
    assert n - 1 - q == 2 * (n / 2 - 1 - q / 2) + 1;
  }

  lemma HalveOdd(n: nat, t: nat, i: nat)
    requires t > 0 && n % 2 == 0 && Quot(i, t) < n && Quot(i, t) % 2 == 1
    ensures i >= t && Source(n * t, 2 * t, i - t) == Source(n * t, t, i)
  {
    hide Quot, Rem;
    var q := Quot(i, t);
    QuotRemUnique(n * t, t, n, 0);
    QuotTwice(n * t, t);
    QuotAtLeast(i, t, 1);
    QuotShift(i - t, t);
    QuotTwice(i - t, t);
    Distribute(n / 2 - 1 - q / 2, 0, t);
    assert n - 1 - q == 2 * (n / 2 - 1 - q / 2);
  }

  lemma HalveBlocks(w: nat, t: nat, i: nat)
    requires t > 0 && Rem(w, 2 * t) == 0 && i < w
    ensures Rem(w, t) == 0
    ensures Stripe(t, i) ==> i + t < w && Source(w, t, i) == Source(w, 2 * t, i + t)
    ensures !Stripe(t, i) ==> i >= t && Source(w, t, i) == Source(w, 2 * t, i - t)
    ensures 0 <= Source(w, t, i) < w
  {
    hide Quot, Rem;
    QuotTwice(w, t);
    QuotRem(w, t);
    var n, q, j := Quot(w, t), Quot(i, t), Rem(i, t);
    assert n % 2 == 0 && Rem(w, t) == 0 && w == n * t;
    QuotRem(i, t);
    QuotAtLeast(i, t, n);
    SourceBound(n, q, t, j);
    if q % 2 == 0 { HalveEven(n, t, i); } else { HalveOdd(n, t, i); }
  }

  lemma SourceBound(n: nat, q: nat, t: nat, j: nat)
    requires q < n && j < t
    ensures 0 <= (n - 1 - q) * t + j < n * t
  {
  }

  /** The mask of the finer stripes is the coarser one, shifted onto itself. */
  lemma HalveStripes(t: nat, i: nat)
    requires t > 0
    ensures Stripe(t, i) <==> (Stripe(2 * t, i) != (i >= t && Stripe(2 * t, i - t)))
  {
    hide Quot, Rem;
    QuotTwice(i, t);
    QuotAtLeast(i, t, 1);
    if i >= t {
      QuotShift(i - t, t);
      QuotTwice(i - t, t);
    }
  }

  /** The mask has the stripes of width `s`. */
  ghost predicate Striped(mask: Word, s: nat)
    requires s > 0
  {
    forall i: nat | i < |mask| :: mask[i] == Stripe(s, i)
  }

  /** The blocks of `s` bits of `v` are those of `x` in reversed order. */
  ghost predicate Swapped(x: Word, v: Word, s: nat)
    requires s > 0 && |v| == |x|
  {
    forall i: nat | i < |x| :: 0 <= Source(|x|, s, i) < |x| && v[i] == x[Source(|x|, s, i)]
  }

  lemma HalvedMask(mask: Word, s: nat)
    requires s > 0 && Striped(mask, 2 * s)
    ensures Striped(Xor(mask, Shl(mask, s)), s)
  {
    hide Stripe;
    forall i: nat | i < |mask| ensures Xor(mask, Shl(mask, s))[i] == Stripe(s, i) {
      HalveStripes(s, i);
    }
  }

  lemma HalvedWord(x: Word, v: Word, mask: Word, s: nat)
    requires s > 0 && |v| == |mask| == |x| && Rem(|x|, 2 * s) == 0
    requires Striped(mask, s) && Swapped(x, v, 2 * s)
    ensures Swapped(x, Or(And(Shr(v, s), mask), And(Shl(v, s), Not(mask))), s)
    ensures x != [] ==> Rem(|x|, s) == 0
  {
    hide Stripe, Source, Rem, Quot;
    var v' := Or(And(Shr(v, s), mask), And(Shl(v, s), Not(mask)));
    forall i: nat | i < |x| ensures 0 <= Source(|x|, s, i) < |x| && v'[i] == x[Source(|x|, s, i)] {
      HalveBlocks(|x|, s, i);
    }
    if x != [] { HalveBlocks(|x|, s, 0); }
  }

  /** The parallel reversal loop reverses words of every power-of-two width. */
  method Rev(x: Word) returns (v: Word)
    requires IsPow2(|x|)
    ensures v == Reversed(x)
  {
    hide Quot, Rem, Source, Stripe, Xor, And, Or, Not, Shl, Shr, Reversed;
    var s: nat := |x|;
    var mask := Not(Zeros(|x|));
    v := x;
    FirstStripe(x);
    while s / 2 > 0
      invariant IsPow2(s) && Rem(|x|, s) == 0
      invariant |mask| == |v| == |x| && Striped(mask, s) && Swapped(x, v, s)
    {
      s := s / 2;
      ghost var mask0, v0 := mask, v;
      mask := Xor(mask, Shl(mask, s));
      HalvedMask(mask0, s);
      v := Or(And(Shr(v, s), mask), And(Shl(v, s), Not(mask)));
      HalvedWord(x, v0, mask, s);
    }
    LastSource(x, v);
  }

  lemma FirstStripe(x: Word)
    requires x != []
    ensures Rem(|x|, |x|) == 0 && Striped(Not(Zeros(|x|)), |x|) && Swapped(x, x, |x|)
  {
    hide Rem, Quot, Stripe, Source;
    forall i: nat | i < |x| ensures Stripe(|x|, i) && Source(|x|, |x|, i) == i { OneStripe(|x|, i); }
    OneStripe(|x|, 0);
  }

  lemma OneStripe(w: nat, i: nat)
    requires i < w
    ensures Rem(w, w) == 0 && Stripe(w, i) && Source(w, w, i) == i
  {
    hide Rem, Quot;
    QuotRemUnique(w, w, 1, 0);
    QuotRemUnique(i, w, 0, i);
  }

  lemma LastSource(x: Word, v: Word)
    requires |v| == |x| && Swapped(x, v, 1)
    ensures v == Reversed(x)
  {
  }
}
