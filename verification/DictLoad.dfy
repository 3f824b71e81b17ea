/**
  How full a dictionary gets: with resizing enabled and no safe iterator running, incremental
  rehashing keeps pace with insertion.
 */
module DictLoad {
  import opened Basics
  import opened DictTable
  import opened DictOps

  /** The operations of the map interface, with resizing enabled. */
  predicate MapOp(op: Op) {
    match op
    case AddOp(_, canResize) => canResize
    case ReplaceOp(_, canResize) => canResize
    case DeleteOp(_) => true
    case FindOp(_) => true
    case _ => false
  }

  /** The table that new entries go to. */
  function Target(d: Dict): Table {
    if Rehashing(d) then d.t1 else d.t0
  }

  /** Buckets of the old table that are still to be moved. */
  function Unmoved(d: Dict): int {
    if Rehashing(d) then Size(d.t0) - d.rehashidx else 0
  }

  ghost predicate LoadInv(d: Dict, h: Hasher) {
    && Valid(d, h) && d.iterators == 0
    && (Size(d.t0) > 0 ==> DictSize(d) + Unmoved(d) <= Size(Target(d)) + 1)
  }

  lemma EmptyUntilCreated(d: Dict, h: Hasher)
    requires Valid(d, h) && Size(d.t0) == 0
    ensures DictSize(d) == 0
  {
  }

  /** A step of rehashing frees at least one unit of the bound, unless it ends the rehash. */
  lemma StepLoad(d: Dict, h: Hasher)
    requires LoadInv(d, h)
    ensures var d' := Step(d, h);
            && LoadInv(d', h)
            && (Size(d'.t0) > 0 && Rehashing(d') ==> DictSize(d') + Unmoved(d') <= Size(Target(d')))
  {
    hide TableInv;
    StepKeeps(d, h);
    if Rehashing(d) { RehashOnceKeeps(d, h); }
  }

  lemma AddLoad(d: Dict, h: Hasher, e: Entry)
    requires LoadInv(d, h) && 2 * DictSize(d) < LONG_MAX
    ensures LoadInv(Add(d, h, e, true).0, h) && Size(Add(d, h, e, true).0.t0) > 0
  {
    hide TableInv, TableGet, TotalLen;
    StepKeeps(d, h);
    StepLoad(d, h);
    AddKeeps(d, h, e, true);
    var d1 := Step(d, h);
    hide Step, RehashOnce;
    if Size(d1.t0) == 0 { EmptyUntilCreated(d1, h); }
    NextPowerIsPow2(INITIAL_SIZE);
    NextPowerIsPow2(2 * d1.t0.used);
    hide NextPower;
    ExpandIfNeededKeeps(d1, h, true);
  }

  lemma ReplaceLoad(d: Dict, h: Hasher, e: Entry)
    requires LoadInv(d, h) && 2 * DictSize(d) < LONG_MAX
    ensures LoadInv(Replace(d, h, e, true).0, h) && Size(Replace(d, h, e, true).0.t0) > 0
  {
    hide TableInv, TableGet, Add, Step, SetValue, LoadInv;
    LoadIsValid(d, h);
    AddLoad(d, h, e);
    AddKeeps(d, h, e, true);
    var (d1, added) := Add(d, h, e, true);
    if !added {
      StepLoad(d1, h);
      LoadIsValid(d1, h);
      StepKeeps(d1, h);
      SetValueLoad(Step(d1, h), h, e.key, e.val);
    }
  }

  lemma LoadIsValid(d: Dict, h: Hasher)
    requires LoadInv(d, h)
    ensures Valid(d, h)
  {
  }

  lemma SetValueLoad(d: Dict, h: Hasher, k: Key, v: Value)
    requires LoadInv(d, h) && Get(d, h, k).Some?
    ensures LoadInv(SetValue(d, h, k, v), h) && Size(SetValue(d, h, k, v).t0) == Size(d.t0)
  {
    hide TableInv, TableGet;
    SetValueKeeps(d, h, k, v);
  }

  lemma DeleteLoad(d: Dict, h: Hasher, k: Key)
    requires LoadInv(d, h)
    ensures LoadInv(Delete(d, h, k).0, h)
  {
    hide TableInv, TableGet;
    StepLoad(d, h);
    StepKeeps(d, h);
    DeleteKeeps(d, h, k);
  }

  lemma OpLoad(d: Dict, h: Hasher, op: Op)
    requires LoadInv(d, h) && MapOp(op) && Fits(d, op)
    ensures LoadInv(Apply(d, h, op), h)
  {
    hide TableInv, LoadInv;
    match op
    case AddOp(e, _) => AddLoad(d, h, e);
    case ReplaceOp(e, _) => ReplaceLoad(d, h, e);
    case DeleteOp(k) => DeleteLoad(d, h, k);
    case FindOp(k) => StepLoad(d, h);
  }

  /**
    In every run of the map interface the entries exceed the buckets of the target table by at most
    one, counting each bucket of the old table that is still to be moved as an entry.
   */
  lemma {:induction false} LoadBound(h: Hasher, ops: seq<Op>)
    requires forall i | 0 <= i < |ops| :: MapOp(ops[i])
    requires After(h, ops).Some?
    ensures var d := After(h, ops).value.0;
            && (Size(d.t0) > 0 ==> DictSize(d) <= Size(Target(d)) + 1)
            && (Rehashing(d) ==> DictSize(d) + (Size(d.t0) - d.rehashidx) <= Size(d.t1) + 1)
            && (Size(d.t0) == 0 ==> DictSize(d) == 0)
  {
    LoadInvAlways(h, ops);
    var d := After(h, ops).value.0;
    if Size(d.t0) == 0 { EmptyUntilCreated(d, h); }
  }

  lemma {:induction false} LoadInvAlways(h: Hasher, ops: seq<Op>)
    requires forall i | 0 <= i < |ops| :: MapOp(ops[i])
    requires After(h, ops).Some?
    ensures LoadInv(After(h, ops).value.0, h)
    decreases |ops|
  {
    if ops != [] {
      LoadInvAlways(h, ops[..|ops| - 1]);
      OpLoad(After(h, ops[..|ops| - 1]).value.0, h, ops[|ops| - 1]);
    }
  }
}
