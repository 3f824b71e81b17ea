/**
  The byte arithmetic of the crit-bit tree: `otherbits` masks, the direction a key takes at a
  node, and the first bit in which two C strings differ.

  Bits of a key are numbered from the most significant bit of its first byte, so that a node's
  pair (byte, otherbits) names one position and positions order the pairs lexicographically.
 */
module CritbitBits {

  type Byte = bv8

  /** A C string without its terminator: no byte is NUL. */
  type Key = k: seq<Byte> | forall i | 0 <= i < |k| :: k[i] != 0

  /** The byte a C program reads at index `i`; the terminator and what follows count as NUL. */
  function At(k: Key, i: nat): Byte {
    if i < |k| then k[i] else 0
  }

  predicate IsMask(o: Byte) {
    o in {0x7F, 0xBF, 0xDF, 0xEF, 0xF7, 0xFB, 0xFD, 0xFE}
  }

  /** Which bit of a byte, counted from the most significant one, the mask leaves out. */
  function Rank(o: Byte): (r: nat)
    requires IsMask(o)
    ensures r < 8
  {
    if o == 0x7F then 0 else if o == 0xBF then 1 else if o == 0xDF then 2 else if o == 0xEF then 3
    else if o == 0xF7 then 4 else if o == 0xFB then 5 else if o == 0xFD then 6 else 7
  }

  /** Rank of the most significant bit set in `x`. */
  function TopRank(x: Byte): (r: nat)
    requires x != 0
    ensures r < 8
  {
    if x >= 0x80 then 0 else if x >= 0x40 then 1 else if x >= 0x20 then 2 else if x >= 0x10 then 3
    else if x >= 0x08 then 4 else if x >= 0x04 then 5 else if x >= 0x02 then 6 else 7
  }

  function Weight(r: nat): Byte
    requires r < 8
  {
    if r == 0 then 0x80 else if r == 1 then 0x40 else if r == 2 then 0x20 else if r == 3 then 0x10
    else if r == 4 then 0x08 else if r == 5 then 0x04 else if r == 6 then 0x02 else 0x01
  }

  predicate BitOf(b: Byte, r: nat)
    requires r < 8
  {
    b & Weight(r) != 0
  }

  /** Bit `pos` of the infinite, zero-padded bit string of a key. */
  predicate Bit(k: Key, pos: nat) {
    BitOf(At(k, pos / 8), pos % 8)
  }

  /** The position a node's (byte, otherbits) pair stands for. */
  function Position(byte: nat, otherbits: Byte): nat
    requires IsMask(otherbits)
  {
    8 * byte + Rank(otherbits)
  }

  function GetDirection(byte: nat, otherbits: Byte, k: Key): nat {
    if byte < |k| then (1 + (otherbits | k[byte]) as nat) / 256 else 0
  }

  lemma DirectionIsBit(byte: nat, otherbits: Byte, k: Key)
    requires IsMask(otherbits)
    ensures GetDirection(byte, otherbits, k) == (if Bit(k, Position(byte, otherbits)) then 1 else 0)
  {
  }

  /** The same for a byte read at or before the terminator. */
  lemma DirectionOfByte(byte: nat, otherbits: Byte, k: Key)
    requires IsMask(otherbits)
    ensures (1 + (otherbits | At(k, byte)) as nat) / 256 == (if Bit(k, Position(byte, otherbits)) then 1 else 0)
  {
  }

  /** The order in which insertion compares nodes is the order of positions. */
  lemma PositionOrder(b1: nat, o1: Byte, b2: nat, o2: Byte)
    requires IsMask(o1) && IsMask(o2)
    ensures (b1 > b2 || (b1 == b2 && o1 > o2)) <==> Position(b1, o1) > Position(b2, o2)
    ensures (b1 == b2 && o1 == o2) <==> Position(b1, o1) == Position(b2, o2)
  {
  }

  /** Clearing low bits one at a time leaves the most significant one; its complement is the mask. */
  method CriticalMask(x: Byte) returns (o: Byte)
    requires x != 0
    ensures IsMask(o) && Rank(o) == TopRank(x)
  {
    var y := x;
    while y & (y - 1) != 0
      invariant y != 0 && TopRank(y) == TopRank(x)
      decreases y
    {
      ClearLowBit(y);
      y := y & (y - 1);
    }
    SingleBit(y);
    o := y ^ 0xFF;
  }

  lemma ClearLowBit(y: Byte)
    requires y & (y - 1) != 0
    ensures y != 0 && y & (y - 1) < y
    ensures TopRank(y & (y - 1)) == TopRank(y)
  {
  }

  lemma SingleBit(y: Byte)
    requires y != 0 && y & (y - 1) == 0
    ensures IsMask(y ^ 0xFF) && Rank(y ^ 0xFF) == TopRank(y)
  {
  }

  /** The first bit in which two bytes differ is the most significant one of their difference. */
  lemma FirstBitOfBytes(a: Byte, b: Byte, r: nat)
    requires a != b && r <= TopRank(a ^ b)
    ensures a ^ b != 0
    ensures (BitOf(a, r) != BitOf(b, r)) <==> r == TopRank(a ^ b)
  {
  }

  lemma GreaterHasTheBit(a: Byte, b: Byte)
    requires a ^ b != 0
    ensures BitOf(a, TopRank(a ^ b)) <==> a > b
  {
  }

  /** Least index at or after `i` where the two C strings differ. */
  function DiffByteFrom(a: Key, b: Key, i: nat): (j: nat)
    requires a != b
    requires forall l | 0 <= l < i :: At(a, l) == At(b, l)
    ensures At(a, j) != At(b, j)
    ensures forall l | 0 <= l < j :: At(a, l) == At(b, l)
    decreases |a| + |b| + 1 - i
  {
    if At(a, i) != At(b, i) then
      i
    else
      assert i < |a| + |b| by {
        if i >= |a| + |b| { SameBytes(a, b, i); }
      }
      DiffByteFrom(a, b, i + 1)
  }

  lemma SameBytes(a: Key, b: Key, n: nat)
    requires forall l | 0 <= l < n :: At(a, l) == At(b, l)
    requires n >= |a| && n >= |b|
    ensures a == b
  {
    assert |a| < |b| ==> At(a, |a|) == At(b, |a|);
    assert |b| < |a| ==> At(a, |b|) == At(b, |b|);
    assert forall i | 0 <= i < |a| :: At(a, i) == At(b, i);
    assert forall i | 0 <= i < |a| :: a[i] == At(a, i) && b[i] == At(b, i);
  }

  function DiffByte(a: Key, b: Key): (j: nat)
    requires a != b
    ensures At(a, j) ^ At(b, j) != 0
  {
    DiffByteFrom(a, b, 0)
  }

  /** The first bit position at which two distinct keys differ. */
  function Diff(a: Key, b: Key): nat
    requires a != b
  {
    8 * DiffByte(a, b) + TopRank(At(a, DiffByte(a, b)) ^ At(b, DiffByte(a, b)))
  }

  /** The two keys have the same bits before position `n`. */
  ghost predicate Agree(a: Key, b: Key, n: nat) {
    forall i: nat | i < n :: Bit(a, i) == Bit(b, i)
  }

  lemma DiffIsFirst(a: Key, b: Key)
    requires a != b
    ensures Bit(a, Diff(a, b)) != Bit(b, Diff(a, b))
    ensures Bit(a, Diff(a, b)) <==> At(a, DiffByte(a, b)) > At(b, DiffByte(a, b))
    ensures Agree(a, b, Diff(a, b))
  {
    var d := Diff(a, b);
    DiffIsFirstAt(a, b, d);
    forall i: nat | i < d ensures Bit(a, i) == Bit(b, i) {
      DiffIsFirstAt(a, b, i);
    }
  }

  lemma DiffIsFirstAt(a: Key, b: Key, i: nat)
    requires a != b && i <= Diff(a, b)
    ensures Bit(a, i) != Bit(b, i) <==> i == Diff(a, b)
    ensures i == Diff(a, b) ==> (Bit(a, i) <==> At(a, DiffByte(a, b)) > At(b, DiffByte(a, b)))
  {
    hide DiffByte, Diff, TopRank, BitOf, At;
    DiffInParts(a, b, i / 8, i % 8);
    var j := DiffByte(a, b);
    if i / 8 == j { BitsInParts(At(a, j), At(b, j), i % 8); }
  }

  lemma BitsInParts(x: Byte, y: Byte, r: nat)
    requires r < 8 && x != y && x ^ y != 0 && r <= TopRank(x ^ y)
    ensures BitOf(x, r) != BitOf(y, r) <==> r == TopRank(x ^ y)
    ensures r == TopRank(x ^ y) ==> (BitOf(x, r) <==> x > y)
  {
    FirstBitOfBytes(x, y, r);
    GreaterHasTheBit(x, y);
  }

  lemma DiffInParts(a: Key, b: Key, q: nat, r: nat)
    requires a != b && r < 8 && 8 * q + r <= Diff(a, b)
    ensures var j := DiffByte(a, b);
            var top := TopRank(At(a, j) ^ At(b, j));
            && q <= j && (q == j ==> r <= top) && (q < j ==> At(a, q) == At(b, q))
            && (8 * q + r == Diff(a, b) <==> q == j && r == top)
            && At(a, j) != At(b, j) && At(a, j) ^ At(b, j) != 0
  {
    hide TopRank;
  }

  lemma DiffUnique(a: Key, b: Key, d: nat)
    requires Agree(a, b, d) && Bit(a, d) != Bit(b, d)
    ensures a != b && Diff(a, b) == d
  {
    DiffIsFirst(a, b);
    var e: nat := Diff(a, b);
    assert e < d ==> Bit(a, e) == Bit(b, e);
    assert d < e ==> Bit(a, d) == Bit(b, d);
  }

  /** Unsigned lexicographic order of byte strings: the sign of strcmp. */
  predicate Less(a: Key, b: Key) {
    a != b && At(a, DiffByte(a, b)) < At(b, DiffByte(a, b))
  }

  /** A byte string comes first exactly when it has the zero at the first differing bit. */
  lemma LessIsZeroBit(a: Key, b: Key)
    requires a != b
    ensures Less(a, b) <==> !Bit(a, Diff(a, b))
    ensures Less(a, b) <==> !Less(b, a)
  {
  }

  /**
    The insertion loop that finds where a new key parts from the leaf `p`: it stops with the first
    differing byte, or finds the two strings equal.
   */
  method FindCritical(p: Key, key: Key) returns (found: bool, newbyte: nat, newotherbits: Byte)
    ensures found <==> p != key
    ensures found ==> IsMask(newotherbits) && newbyte == DiffByte(p, key)
                      && Position(newbyte, newotherbits) == Diff(p, key)
  {
    hide DiffByte, Diff;
    newbyte, newotherbits := 0, 0;
    while newbyte < |key|
      invariant newbyte <= |key|
      invariant forall l | 0 <= l < newbyte :: At(p, l) == At(key, l)
    {
      if At(p, newbyte) != key[newbyte] {
        FoundAt(p, key, newbyte);
        newotherbits := CriticalMask(At(p, newbyte) ^ key[newbyte]);
        return true, newbyte, newotherbits;
      }
      assert At(p, newbyte) == At(key, newbyte);
      newbyte := newbyte + 1;
    }
    if At(p, newbyte) != 0 {
      FoundAt(p, key, newbyte);
      newotherbits := CriticalMask(At(p, newbyte));
      assert At(p, newbyte) ^ 0 == At(p, newbyte);
      return true, newbyte, newotherbits;
    }
    found := false;
    assert newbyte >= |p|;
    SameBytes(p, key, newbyte);
  }

  lemma FoundAt(p: Key, key: Key, n: nat)
    requires forall l | 0 <= l < n :: At(p, l) == At(key, l)
    requires At(p, n) != At(key, n)
    ensures p != key && DiffByte(p, key) == n
    ensures At(p, n) ^ At(key, n) != 0 && Diff(p, key) == 8 * n + TopRank(At(p, n) ^ At(key, n))
  {
  }
}
