/**
  A whole run of uthash: any adds, deletions, sorts and lookups answer as a plain sequence of items
  does, and leave the table sound. Items and their keys are those of the client; every item is added
  with the hash value of its key.
 */
module HashRun {
  import opened Basics
  import opened HashSort
  import opened HashList
  import opened HashChains
  import opened HashShape
  import opened HashTable

  datatype Op<K> = AddOp(x: nat) | DeleteOp(x: nat) | SortOp(cmp: (nat, nat) -> int) | FindOp(k: K)

  /** What the macros ask of their callers: new items that are not NULL, deletion of what is there, a preorder. */
  ghost predicate Legal<K>(op: Op<K>, s: seq<nat>) {
    match op
    case AddOp(x) => x != 0 && x !in s
    case DeleteOp(x) => x in s
    case SortOp(cmp) => Preorder(cmp)
    case FindOp(_) => true
  }

  /** The same on a plain sequence. */
  ghost function After<K>(s: seq<nat>, op: Op<K>): seq<nat> {
    match op
    case AddOp(x) => s + [x]
    case DeleteOp(x) => Without(s, x)
    case SortOp(cmp) => HashSort.Sort(s, 1, cmp)
    case FindOp(_) => s
  }

  /** The sequences a run goes through. */
  ghost function States<K>(s: seq<nat>, ops: seq<Op<K>>): (r: seq<seq<nat>>)
    ensures |r| == |ops| + 1 && r[0] == s
    decreases |ops|
  {
    if ops == [] then [s] else [s] + States(After(s, ops[0]), ops[1..])
  }

  ghost predicate AllLegal<K>(s: seq<nat>, ops: seq<Op<K>>)
    decreases |ops|
  {
    ops == [] || (Legal(ops[0], s) && AllLegal(After(s, ops[0]), ops[1..]))
  }

  /** An item with the key, or NULL if there is none. */
  ghost predicate Answers<K(!new)>(s: seq<nat>, keyOf: nat -> K, op: Op<K>, found: nat) {
    op.FindOp? ==>
      if found != 0 then found in s && keyOf(found) == op.k else forall x | x in s :: keyOf(x) != op.k
  }

  /** Every item is where the hash value of its key says. */
  ghost predicate Hashed<K>(t: Table, keyOf: nat -> K, hash: K -> nat)
    reads t
  {
    forall x | x in t.items :: x in t.hashv && t.hashv[x] == hash(keyOf(x))
  }

  /** The numbers of the table; without items there is none. */
  ghost function TableShape(t: Table): Option<Shape>
    reads t
  {
    if t.head == 0 then None else Some(t.Numbers())
  }

  /** What an operation on the items `s` does to the numbers of the table. */
  ghost predicate ShapeStep<K>(a: Option<Shape>, s: seq<nat>, keyOf: nat -> K, hash: K -> nat, op: Op<K>,
                               b: Option<Shape>) {
    match op
    case AddOp(x) =>
      var from := if a.None? then Fresh else a.value;
      b.Some? && |from.counts| == |from.mults| > 0 && Pushed(from, hash(keyOf(x)), |s| + 1, b.value)
    case DeleteOp(x) =>
      if |s| == 1 then b.None?
      else a.Some? && b.Some? && |a.value.counts| > 0 && Pulled(a.value, hash(keyOf(x)), b.value)
    case _ => b == a
  }

  method Perform<K(==,!new)>(t: Table, keyOf: nat -> K, hash: K -> nat, op: Op<K>) returns (found: nat)
    requires t.Valid() && Hashed(t, keyOf, hash) && Legal(op, t.items)
    modifies t
    ensures t.Valid() && Hashed(t, keyOf, hash) && t.items == After(old(t.items), op)
    ensures Answers(old(t.items), keyOf, op, found)
    ensures ShapeStep(old(TableShape(t)), old(t.items), keyOf, hash, op, TableShape(t))
  {
    hide Linked, Back, NoDup, ChainsOk, Spread, Preorder, Ordered, Equals, HashSort.Sort, IsList, Pushed, Pulled,
      Counts, Mults, Fresh;
    if t.head != 0 { ShapeLengths(t.Numbers()); }
    FreshLengths();
    found := 0;
    match op {
      case AddOp(x) =>
        t.Add(x, hash(keyOf(x)));
      case DeleteOp(x) =>
        WithoutIn(t.items, x);
        t.Delete(x);
      case SortOp(cmp) =>
        assert forall x :: x in t.items <==> x in multiset(t.items);
        t.Sort(cmp);
        assert forall x :: x in t.items <==> x in multiset(t.items);
      case FindOp(k) =>
        found := t.Find(keyOf, k, hash(k));
    }
  }

  lemma {:induction false} WithoutIn(s: seq<nat>, x: nat)
    ensures forall y | y in Without(s, x) :: y in s
  {
    if s != [] && s[0] != x {
      WithoutIn(s[1..], x);
      assert Without(s, x) == [s[0]] + Without(s[1..], x);
    }
  }

  /** Every answer of a run is that of the plain sequence at that point, and so is the order of the items in the end. */
  method Run<K(==,!new)>(t: Table, keyOf: nat -> K, hash: K -> nat, ops: seq<Op<K>>)
    returns (found: seq<nat>, ghost shapes: seq<Option<Shape>>)
    requires t.Valid() && Hashed(t, keyOf, hash) && AllLegal(t.items, ops)
    modifies t
    ensures t.Valid() && Hashed(t, keyOf, hash) && t.items == States(old(t.items), ops)[|ops|]
    ensures |found| == |ops|
    ensures ShapeRun(shapes, old(t.items), keyOf, hash, ops)
    ensures shapes[0] == old(TableShape(t)) && shapes[|ops|] == TableShape(t)
    ensures forall i | 0 <= i < |ops| :: Answers(States(old(t.items), ops)[i], keyOf, ops[i], found[i])
  {
    hide Linked, Back, NoDup, IsList, ChainsOk, Spread, Legal, Answers, After, Hashed, States, TableShape,
      ShapeStep;
    found := [];
    shapes := [TableShape(t)];
    ghost var s := t.items;
    assert ops[0..] == ops;
    for i := 0 to |ops|
      invariant t.Valid() && Hashed(t, keyOf, hash) && |found| == i
      invariant t.items == States(s, ops)[i] && AllLegal(t.items, ops[i..])
      invariant |shapes| == i + 1 && shapes[0] == old(TableShape(t)) && shapes[i] == TableShape(t)
      invariant forall j | 0 <= j < i :: ShapeStep(shapes[j], States(s, ops)[j], keyOf, hash, ops[j], shapes[j + 1])
      invariant forall j | 0 <= j < i :: Answers(States(s, ops)[j], keyOf, ops[j], found[j])
    {
      assert ops[i..][1..] == ops[i + 1..];
      StatesNext(s, ops, i);
      var r := Perform(t, keyOf, hash, ops[i]);
      found := found + [r];
      shapes := shapes + [TableShape(t)];
    }
  }

  lemma {:induction false} StatesNext<K>(s: seq<nat>, ops: seq<Op<K>>, i: nat)
    requires i < |ops|
    ensures States(s, ops)[i + 1] == After(States(s, ops)[i], ops[i])
    decreases i
  {
    if i > 0 { StatesNext(After(s, ops[0]), ops[1..], i - 1); }
  }

  lemma ShapeLengths(a: Shape)
    requires ShapeInv(a)
    ensures |a.counts| == |a.mults| > 0
  {
  }

  lemma FreshLengths()
    ensures |Fresh.counts| == |Fresh.mults| == 32
  {
  }

  /** The numbers a table goes through in a run. */
  ghost predicate ShapeRun<K>(shapes: seq<Option<Shape>>, s: seq<nat>, keyOf: nat -> K, hash: K -> nat,
                              ops: seq<Op<K>>) {
    && |shapes| == |ops| + 1
    && forall i {:trigger ops[i]} | 0 <= i < |ops| ::
         ShapeStep(shapes[i], States(s, ops)[i], keyOf, hash, ops[i], shapes[i + 1])
  }

  /**
    In a run from a table without items, expansion is given up exactly after the last two expansions since
    the table was made were both ineffective, and there are 32 buckets, doubled by each expansion.
   */
  lemma {:induction false} GivesUpAfterTwo<K>(shapes: seq<Option<Shape>>, s: seq<nat>, keyOf: nat -> K, hash: K -> nat,
                                              ops: seq<Op<K>>, n: nat)
    requires ShapeRun(shapes, s, keyOf, hash, ops) && n <= |ops| && shapes[0].None?
    ensures shapes[n].Some? ==> ShapeInv(shapes[n].value)
  {
    hide Pushed, Pulled, ShapeInv, States, Fresh;
    if n > 0 {
      GivesUpAfterTwo(shapes, s, keyOf, hash, ops, n - 1);
      FreshIsSound();
      var op, a, b := ops[n - 1], shapes[n - 1], shapes[n];
      assert ShapeStep(a, States(s, ops)[n - 1], keyOf, hash, op, b);
      if op.AddOp? {
        PushedIsSound(if a.None? then Fresh else a.value, hash(keyOf(op.x)), |States(s, ops)[n - 1]| + 1, b.value);
      } else if op.DeleteOp? && b.Some? {
        PulledIsSound(a.value, hash(keyOf(op.x)), b.value);
      }
    }
  }
}
