/** The in-place bottom-up merge sort of uthash's insertion-order list. */
module HashSort {
  import opened Basics

  type Links = map<nat, nat>

  // ------------------------------------------------------------------ what the passes compute

  /** Merging two runs, the first one's element first among equals. */
  function Merge(p: seq<nat>, q: seq<nat>, cmp: (nat, nat) -> int): seq<nat>
    decreases |p| + |q|
  {
    if p == [] then q
    else if q == [] then p
    else if cmp(p[0], q[0]) <= 0 then [p[0]] + Merge(p[1..], q, cmp)
    else [q[0]] + Merge(p, q[1..], cmp)
  }

  /** One pass: consecutive pairs of runs of `n` elements are merged. */
  function Pass(s: seq<nat>, n: nat, cmp: (nat, nat) -> int): seq<nat>
    requires n > 0
    decreases |s|
  {
    if s == [] then [] else
    var i := MinNat(n, |s|);
    var j := MinNat(2 * n, |s|);
    Merge(s[..i], s[i..j], cmp) + Pass(s[j..], n, cmp)
  }

  /** The passes of the whole sort, the run length doubling until one merge covers the list. */
  function Sort(s: seq<nat>, n: nat, cmp: (nat, nat) -> int): seq<nat>
    requires n > 0
    decreases if |s| > n then |s| - n else 0
  {
    if |s| <= 2 * n then Pass(s, n, cmp) else
    PassLength(s, n, cmp);
    Sort(Pass(s, n, cmp), 2 * n, cmp)
  }

  lemma {:induction false} MergeLength(p: seq<nat>, q: seq<nat>, cmp: (nat, nat) -> int)
    ensures |Merge(p, q, cmp)| == |p| + |q|
    decreases |p| + |q|
  {
    if p != [] && q != [] {
      if cmp(p[0], q[0]) <= 0 { MergeLength(p[1..], q, cmp); } else { MergeLength(p, q[1..], cmp); }
    }
  }

  lemma {:induction false} PassLength(s: seq<nat>, n: nat, cmp: (nat, nat) -> int)
    requires n > 0
    ensures |Pass(s, n, cmp)| == |s|
    decreases |s|
  {
    if s != [] {
      var i, j := MinNat(n, |s|), MinNat(2 * n, |s|);
      MergeLength(s[..i], s[i..j], cmp);
      PassLength(s[j..], n, cmp);
    }
  }

  ghost predicate Ordered(s: seq<nat>, cmp: (nat, nat) -> int) {
    forall i, j | 0 <= i < j < |s| :: cmp(s[i], s[j]) <= 0
  }

  /** The elements equal to `a` under the comparison, in list order. */
  ghost function Equals(s: seq<nat>, a: nat, cmp: (nat, nat) -> int): seq<nat> {
    if s == [] then [] else (if cmp(s[0], a) == 0 then [s[0]] else []) + Equals(s[1..], a, cmp)
  }

  lemma {:induction false} EqualsAppend(s: seq<nat>, t: seq<nat>, a: nat, cmp: (nat, nat) -> int)
    ensures Equals(s + t, a, cmp) == Equals(s, a, cmp) + Equals(t, a, cmp)
  {
    if s == [] {
      assert s + t == t;
    } else {
      assert (s + t)[1..] == s[1..] + t;
      EqualsAppend(s[1..], t, a, cmp);
    }
  }

  lemma {:induction false} NoEquals(s: seq<nat>, a: nat, cmp: (nat, nat) -> int)
    requires forall x | x in s :: cmp(x, a) != 0
    ensures Equals(s, a, cmp) == []
  {
    if s != [] { NoEquals(s[1..], a, cmp); }
  }

  lemma OrderedCons(x: nat, s: seq<nat>, cmp: (nat, nat) -> int)
    requires Ordered(s, cmp) && forall y | y in s :: cmp(x, y) <= 0
    ensures Ordered([x] + s, cmp)
  {
  }

  lemma OrderedTail(s: seq<nat>, cmp: (nat, nat) -> int)
    requires Ordered(s, cmp) && s != []
    ensures Ordered(s[1..], cmp) && forall y | y in s[1..] :: cmp(s[0], y) <= 0
  {
  }

  /** Merging two sorted runs sorts them, and keeps the order of equals, those of the first run first. */
  lemma {:induction false} MergeSorts(p: seq<nat>, q: seq<nat>, cmp: (nat, nat) -> int)
    requires Preorder(cmp) && Ordered(p, cmp) && Ordered(q, cmp)
    ensures Ordered(Merge(p, q, cmp), cmp)
    ensures forall x :: x in Merge(p, q, cmp) <==> x in p || x in q
    decreases |p| + |q|
  {
    if p != [] && q != [] {
      OrderedTail(p, cmp);
      OrderedTail(q, cmp);
      if cmp(p[0], q[0]) <= 0 {
        MergeSorts(p[1..], q, cmp);
        var r := Merge(p[1..], q, cmp);
        assert p == [p[0]] + p[1..] && q == [q[0]] + q[1..];
        forall y | y in r ensures cmp(p[0], y) <= 0 {}
        OrderedCons(p[0], r, cmp);
      } else {
        MergeSorts(p, q[1..], cmp);
        var r := Merge(p, q[1..], cmp);
        assert p == [p[0]] + p[1..] && q == [q[0]] + q[1..];
        assert cmp(q[0], p[0]) <= 0;
        forall y | y in r ensures cmp(q[0], y) <= 0 {}
        OrderedCons(q[0], r, cmp);
      }
    }
  }

  lemma EqualsCons(x: nat, s: seq<nat>, a: nat, cmp: (nat, nat) -> int)
    ensures Equals([x] + s, a, cmp) == (if cmp(x, a) == 0 then [x] else []) + Equals(s, a, cmp)
  {
    assert ([x] + s)[1..] == s;
  }

  lemma {:induction false} MergeIsStable(p: seq<nat>, q: seq<nat>, a: nat, cmp: (nat, nat) -> int)
    requires Preorder(cmp) && Ordered(p, cmp) && Ordered(q, cmp)
    ensures Equals(Merge(p, q, cmp), a, cmp) == Equals(p, a, cmp) + Equals(q, a, cmp)
    decreases |p| + |q|
  {
    hide Ordered, Preorder;
    if p != [] && q != [] {
      OrderedTail(p, cmp);
      OrderedTail(q, cmp);
      if cmp(p[0], q[0]) <= 0 {
        MergeIsStable(p[1..], q, a, cmp);
        EqualsCons(p[0], Merge(p[1..], q, cmp), a, cmp);
      } else {
        MergeIsStable(p, q[1..], a, cmp);
        EqualsCons(q[0], Merge(p, q[1..], cmp), a, cmp);
        if cmp(q[0], a) == 0 {
          LaterNotEqual(p, q[0], a, cmp);
          NoEquals(p, a, cmp);
        }
      }
    }
  }

  /** A run whose first element is greater than an element equal to `a` holds nothing equal to `a`. */
  lemma LaterNotEqual(p: seq<nat>, b: nat, a: nat, cmp: (nat, nat) -> int)
    requires Preorder(cmp) && Ordered(p, cmp) && p != [] && cmp(p[0], b) > 0 && cmp(b, a) == 0
    ensures forall x | x in p :: cmp(x, a) != 0
  {
  }

  /** Every block of `n` elements is sorted. */
  ghost predicate Blocks(s: seq<nat>, n: nat, cmp: (nat, nat) -> int)
    requires n > 0
    decreases |s|
  {
    s != [] ==> Ordered(s[..MinNat(n, |s|)], cmp) && Blocks(s[MinNat(n, |s|)..], n, cmp)
  }

  /** A pass doubles the length of the sorted blocks and keeps the order of equals. */
  lemma {:induction false} PassBlocks(s: seq<nat>, n: nat, cmp: (nat, nat) -> int)
    requires n > 0 && Preorder(cmp) && Blocks(s, n, cmp)
    ensures Blocks(Pass(s, n, cmp), 2 * n, cmp)
    decreases |s|
  {
    if s != [] {
      var i, j := MinNat(n, |s|), MinNat(2 * n, |s|);
      var m, rest := Merge(s[..i], s[i..j], cmp), Pass(s[j..], n, cmp);
      SecondBlock(s, n, cmp);
      MergeSorts(s[..i], s[i..j], cmp);
      MergeLength(s[..i], s[i..j], cmp);
      PassBlocks(s[j..], n, cmp);
      PassLength(s[j..], n, cmp);
      assert (m + rest)[..j] == m && (m + rest)[j..] == rest;
    }
  }

  lemma SecondBlock(s: seq<nat>, n: nat, cmp: (nat, nat) -> int)
    requires n > 0 && Blocks(s, n, cmp) && s != []
    ensures var i, j := MinNat(n, |s|), MinNat(2 * n, |s|);
            Ordered(s[..i], cmp) && Ordered(s[i..j], cmp) && Blocks(s[j..], n, cmp)
  {
    var i, j := MinNat(n, |s|), MinNat(2 * n, |s|);
    var t := s[i..];
    if t == [] {
      assert s[i..j] == [] && s[j..] == [];
    } else {
      assert t[..MinNat(n, |t|)] == s[i..j] && t[MinNat(n, |t|)..] == s[j..];
    }
  }

  lemma EqualsParts(s: seq<nat>, i: nat, j: nat, a: nat, cmp: (nat, nat) -> int)
    requires i <= j <= |s|
    ensures Equals(s, a, cmp) == (Equals(s[..i], a, cmp) + Equals(s[i..j], a, cmp)) + Equals(s[j..], a, cmp)
  {
    hide Equals;
    assert s == s[..i] + (s[i..j] + s[j..]);
    EqualsAppend(s[..i], s[i..j] + s[j..], a, cmp);
    EqualsAppend(s[i..j], s[j..], a, cmp);
  }

  lemma {:induction false} PassIsStable(s: seq<nat>, n: nat, a: nat, cmp: (nat, nat) -> int)
    requires n > 0 && Preorder(cmp) && Blocks(s, n, cmp)
    ensures Equals(Pass(s, n, cmp), a, cmp) == Equals(s, a, cmp)
    decreases |s|
  {
    hide Merge, Ordered, Blocks, Preorder;
    if s != [] {
      var i, j := MinNat(n, |s|), MinNat(2 * n, |s|);
      SecondBlock(s, n, cmp);
      MergeIsStable(s[..i], s[i..j], a, cmp);
      PassIsStable(s[j..], n, a, cmp);
      EqualsAppend(Merge(s[..i], s[i..j], cmp), Pass(s[j..], n, cmp), a, cmp);
      EqualsParts(s, i, j, a, cmp);
    }
  }

  lemma {:induction false} Singles(s: seq<nat>, cmp: (nat, nat) -> int)
    ensures Blocks(s, 1, cmp)
  {
    if s != [] { Singles(s[1..], cmp); }
  }

  /** The sort is a stable sort: ascending, and equals keep their order. */
  lemma {:induction false} SortSorts(s: seq<nat>, n: nat, a: nat, cmp: (nat, nat) -> int)
    requires n > 0 && Preorder(cmp) && Blocks(s, n, cmp)
    ensures Ordered(Sort(s, n, cmp), cmp) && Equals(Sort(s, n, cmp), a, cmp) == Equals(s, a, cmp)
    decreases if |s| > n then |s| - n else 0
  {
    var t := Pass(s, n, cmp);
    PassLength(s, n, cmp);
    PassBlocks(s, n, cmp);
    PassIsStable(s, n, a, cmp);
    if |s| <= 2 * n {
      if t != [] { assert t[..MinNat(2 * n, |t|)] == t; }
    } else {
      SortSorts(t, 2 * n, a, cmp);
    }
  }

  lemma {:induction false} EqualsCount(s: seq<nat>, a: nat, x: nat, cmp: (nat, nat) -> int)
    ensures multiset(Equals(s, a, cmp))[x] == if cmp(x, a) == 0 then multiset(s)[x] else 0
  {
    if s != [] {
      EqualsCount(s[1..], a, x, cmp);
      assert s == [s[0]] + s[1..];
    }
  }

  /** From the first pass on, whatever the list: sorted, a permutation, and stable. */
  lemma SortIsStableSort(s: seq<nat>, cmp: (nat, nat) -> int)
    requires Preorder(cmp)
    ensures Ordered(Sort(s, 1, cmp), cmp)
    ensures forall a :: Equals(Sort(s, 1, cmp), a, cmp) == Equals(s, a, cmp)
    ensures multiset(Sort(s, 1, cmp)) == multiset(s)
  {
    Singles(s, cmp);
    SortSorts(s, 1, 0, cmp);
    forall a ensures Equals(Sort(s, 1, cmp), a, cmp) == Equals(s, a, cmp) { SortSorts(s, 1, a, cmp); }
    var t := Sort(s, 1, cmp);
    forall x ensures multiset(t)[x] == multiset(s)[x] {
      EqualsCount(t, x, x, cmp);
      EqualsCount(s, x, x, cmp);
      assert cmp(x, x) <= 0 && !(cmp(x, x) < 0);
    }
  }
}
