/** Notions that several of the modelled maps share. */
module Basics {

  datatype Option<+T> = None | Some(value: T)

  /** A side of a node; code for the mirror image is the code for the other side. */
  datatype Side = Left | Right

  function Other(s: Side): Side {
    if s.Left? then Right else Left
  }

  function MinNat(a: nat, b: nat): nat {
    if a < b then a else b
  }

  function Pow2(n: nat): (p: nat)
    ensures p > 0
  {
    if n == 0 then 1 else 2 * Pow2(n - 1)
  }

  predicate IsPow2(n: nat) {
    n == 1 || (n > 1 && n % 2 == 0 && IsPow2(n / 2))
  }

  lemma {:induction false} Pow2Monotone(a: nat, b: nat)
    ensures a <= b <==> Pow2(a) <= Pow2(b)
  {
    if a > 0 && b > 0 { Pow2Monotone(a - 1, b - 1); }
  }

  ghost function ToSet(s: seq<nat>): set<nat> {
    set x | x in s
  }

  // ------------------------------------------------------------------ sequences of addresses, 0 being NULL

  function First(s: seq<nat>): nat {
    if s == [] then 0 else s[0]
  }

  function Last(s: seq<nat>): nat {
    if s == [] then 0 else s[|s| - 1]
  }

  /** The sequence without the first occurrence of an element. */
  function Without(s: seq<nat>, x: nat): seq<nat> {
    if s == [] then [] else if s[0] == x then s[1..] else [s[0]] + Without(s[1..], x)
  }

  lemma {:induction false} WithoutAt(s: seq<nat>, x: nat, t: seq<nat>)
    requires x !in s
    ensures Without(s + [x] + t, x) == s + t
  {
    if s == [] {
      assert s + [x] + t == [x] + t;
    } else {
      WithoutAt(s[1..], x, t);
      assert (s + [x] + t)[1..] == s[1..] + [x] + t;
      assert s + t == [s[0]] + (s[1..] + t);
    }
  }

  // ------------------------------------------------------------------ search order

  /** What a comparison function has to satisfy: it is a total preorder. */
  ghost predicate Preorder(cmp: (nat, nat) -> int) {
    && (forall a, b :: cmp(a, b) <= 0 || cmp(b, a) <= 0)
    && (forall a, b :: cmp(a, b) > 0 <==> cmp(b, a) < 0)
    && (forall a, b, c :: cmp(a, b) <= 0 && cmp(b, c) <= 0 ==> cmp(a, c) <= 0)
  }

  /** Its strict part, and that equals may be exchanged. */
  ghost predicate Total(cmp: (nat, nat) -> int) {
    && (forall a, b :: cmp(a, b) < 0 <==> cmp(b, a) > 0)
    && (forall a, b, c :: cmp(a, b) < 0 && cmp(b, c) <= 0 ==> cmp(a, c) < 0)
    && (forall a, b, c :: cmp(a, b) <= 0 && cmp(b, c) < 0 ==> cmp(a, c) < 0)
  }

  lemma PreorderIsTotal(cmp: (nat, nat) -> int)
    requires Preorder(cmp)
    ensures Total(cmp)
  {
  }

  ghost predicate SortedBy(s: seq<nat>, cmp: (nat, nat) -> int) {
    forall i, j | 0 <= i < j < |s| :: cmp(s[i], s[j]) < 0
  }

  /** Dropping an element keeps the rest in search order. */
  lemma {:induction false} WithoutSorted(s: seq<nat>, a: nat, cmp: (nat, nat) -> int)
    requires SortedBy(s, cmp)
    ensures SortedBy(Without(s, a), cmp) && forall b | b in Without(s, a) :: b in s
  {
    if s != [] && s[0] != a {
      WithoutSorted(s[1..], a, cmp);
      var r := Without(s[1..], a);
      forall i | 0 <= i < |r| ensures cmp(s[0], r[i]) < 0 {
        assert r[i] in s[1..];
        var j :| 0 <= j < |s| - 1 && s[1..][j] == r[i];
        assert s[j + 1] == r[i];
      }
      assert Without(s, a) == [s[0]] + r;
    }
  }

  /** An element put between the smaller and the greater ones. */
  lemma PlacedSorted(x: seq<nat>, elm: nat, y: seq<nat>, cmp: (nat, nat) -> int)
    requires Total(cmp) && SortedBy(x + y, cmp)
    requires (forall a | a in x :: cmp(a, elm) < 0) && (forall a | a in y :: cmp(elm, a) < 0)
    ensures SortedBy(x + [elm] + y, cmp) && forall a | a in x + y :: cmp(elm, a) != 0
  {
    var s, r := x + y, x + [elm] + y;
    forall i, j | 0 <= i < j < |r| ensures cmp(r[i], r[j]) < 0 {
      if i != |x| && j != |x| {
        var i', j' := if i < |x| then i else i - 1, if j < |x| then j else j - 1;
        assert r[i] == s[i'] && r[j] == s[j'];
      } else if i == |x| {
        assert r[j] == y[j - |x| - 1];
      } else {
        assert r[i] == x[i];
      }
    }
    forall a | a in s ensures cmp(elm, a) != 0 {
      if a in x { assert cmp(a, elm) < 0; }
    }
  }
}
