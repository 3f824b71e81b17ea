/**
  How long a lookup takes, whatever the writers do meanwhile: the positions it tests increase strictly
  from one pointer load to the next, through live and unlinked nodes alike.
 */
module CritbitBound {
  import opened Basics
  import opened CritbitBits
  import opened CritbitTrie
  import opened CritbitHeap
  import opened CritbitProtocol

  /** No key in memory, or about to be there, is longer than `n` bytes. */
  ghost predicate ShortKeys(s: State, n: nat) {
    && (forall a | a in s.heap.mem && s.heap.mem[a].Str? :: |s.heap.mem[a].key| <= n)
    && (forall a | a in s.heap.mem && s.heap.mem[a].Inner? :: Pos(s.heap.mem[a].crit) < 8 * n)
    && (s.writer.Inserting? ==> |s.writer.key| <= n)
  }

  predicate InsertsShort(step: Step, n: nat) {
    step.LockInsert? ==> |step.k| <= n
  }

  lemma DiffBound(a: Key, b: Key, n: nat)
    requires a != b && |a| <= n && |b| <= n
    ensures Diff(a, b) < 8 * n
  {
  }

  lemma PublishKeepsShort(s: State, x: Addr, a: Addr, n: nat)
    requires MemInv(s) && ShortKeys(s, n) && Enabled(s, PublishStep(x, a))
    ensures ShortKeys(DoPublish(s, x, a), n)
  {
    hide Bit, Position, Diff, CritbitTrie.Valid, Addrs, Distinct, Insert, Publish, Stored, Nearest;
    var y := Leaf(x, s.writer.key, s.writer.value);
    if s.trie.None? {
      PublishIsLiveWrite(s.heap, s.trie, y, a);
      PublishIsInsert(s.heap, s.trie, y, a);
    } else if Nearest(s.trie.value, y.key).key != y.key {
      var t := s.trie.value;
      PublishIsLiveWrite(s.heap, s.trie, y, a);
      NearestStored(s.heap.mem, t, y.key);
      DiffBound(Nearest(t, y.key).key, y.key, n);
      PublishCells(s.heap, t, y, a);
    }
  }

  /** An insertion adds a leaf, and a node that tests the first differing bit. */
  lemma PublishCells(h: Heap, t: Trie, x: Trie, a: Addr)
    requires x.Leaf? && Represents(h, Some(t)) && Nearest(t, x.key).key != x.key
    requires x.a !in h.mem && a !in h.mem && a != x.a
    ensures var m' := Publish(h, Some(t), x, a).mem;
            && m'.Keys == h.mem.Keys + {x.a, a} && m'[x.a] == CellOf(x)
            && m'[a].Inner? && m'[a].crit == CritOf(Nearest(t, x.key).key, x.key)
  {
    hide Bit, Position, Diff, Addrs;
    PublishIsInsert(h, Some(t), x, a);
    PublishWrites(h, Some(t), x, a);
  }

  lemma {:induction false} NearestStored(m: Mem, t: Trie, k: Key)
    requires Stored(m, t)
    ensures Nearest(t, k).a in m && m[Nearest(t, k).a] == CellOf(Nearest(t, k))
  {
    hide Bit, Position;
    if t.Node? { NearestStored(m, Child(t, Bit(k, Pos(t.crit))), k); }
  }

  /** Cells never change what they test. */
  ghost predicate SameTests(m: Mem, m': Mem) {
    forall a | a in m && a in m' && m[a].Inner? :: m'[a].Inner? && m'[a].crit == m[a].crit
  }

  lemma StepKeepsTests(s: State, step: Step)
    requires MemInv(s) && Enabled(s, step)
    ensures SameTests(s.heap.mem, Do(s, step).heap.mem)
  {
    hide Bit, Position, Diff, Nearest, Represents, Unlink, Publish, Addrs;
    if step.PublishStep? {
      var x := Leaf(step.x, s.writer.key, s.writer.value);
      if !(s.trie.Some? && Nearest(s.trie.value, x.key).key == x.key) { PublishIsLiveWrite(s.heap, s.trie, x, step.a); }
    } else if step.UnlinkStep? {
      if s.trie.Some? && Nearest(s.trie.value, s.writer.key).key == s.writer.key {
        UnlinkIsLiveWrite(s.heap, s.trie.value, s.writer.key);
      }
    }
  }

  lemma UnlinkKeepsShort(s: State, n: nat)
    requires MemInv(s) && ShortKeys(s, n) && Enabled(s, UnlinkStep)
    ensures ShortKeys(DoUnlink(s), n)
  {
    hide Bit, Position, Nearest, Represents, Unlink, Addrs, CritbitTrie.Valid;
    if s.trie.Some? && Nearest(s.trie.value, s.writer.key).key == s.writer.key {
      UnlinkIsLiveWrite(s.heap, s.trie.value, s.writer.key);
      UnlinkIsDelete(s.heap, s.trie, s.writer.key);
    }
  }

  lemma StepKeepsShort(s: State, step: Step, n: nat)
    requires MemInv(s) && ShortKeys(s, n) && Enabled(s, step) && InsertsShort(step, n)
    ensures ShortKeys(Do(s, step), n)
  {
    hide Bit, Position, Nearest, Represents, Unlink, Publish, Addrs, MemInv, NextPtr;
    if step.PublishStep? {
      PublishKeepsShort(s, step.x, step.a, n);
    } else if step.UnlinkStep? {
      UnlinkKeepsShort(s, n);
    }
  }

  /** An upper bound for the pointers a reader has yet to load. */
  ghost function Left(s: State, id: nat, n: nat): nat
    requires IsReading(s, id)
  {
    match s.readers[id].pos
    case None => 8 * n + 1
    case Some(p) =>
      var at := if p.Int? && Readable(s.heap.mem, p) then Pos(s.heap.mem[p.a].crit) else 8 * n;
      if at < 8 * n then 8 * n - at else 0
  }

  predicate Loads(step: Step, id: nat) {
    step == LoadHead(id) || step == LoadChild(id)
  }

  function CountLoads(steps: seq<Step>, id: nat): nat {
    if steps == [] then 0 else (if Loads(steps[0], id) then 1 else 0) + CountLoads(steps[1..], id)
  }

  /** Every load brings a reader nearer to its leaf, and nobody else's step puts it back. */
  lemma StepLeaves(s: State, step: Step, id: nat, n: nat)
    requires SysInv(s) && ShortKeys(s, n) && IsReading(s, id) && Enabled(s, step) && SafeAcquire(s, step)
    requires step != Finish(id)
    ensures IsReading(Do(s, step), id)
    ensures Left(Do(s, step), id, n) + (if Loads(step, id) then 1 else 0) <= Left(s, id, n)
  {
    hide Bit, Position, MemInv, HistoryInv, EdgeInv, PathInv, PendingInv, LockInv, NextPtr, Represents, Unlink,
      Publish, Delete, Insert, Nearest, Unlinked;
    if step == LoadChild(id) {
      NextIsSafe(s, id);
      assert StandsAt(s, id, s.readers[id].pos.value);
    } else if step != LoadHead(id) {
      StepKeepsTests(s, step);
      StepKeeps(s, step);
      var s' := Do(s, step);
      assert s'.readers[id] == s.readers[id];
      var pos := s.readers[id].pos;
      if pos.Some? { assert StandsAt(s, id, pos.value) && StandsAt(s', id, pos.value); }
    }
  }

  lemma {:induction false} RunLeaves(s: State, steps: seq<Step>, id: nat, n: nat)
    requires SysInv(s) && ShortKeys(s, n) && AllSafe(s, steps) && (forall step | step in steps :: InsertsShort(step, n))
    requires IsReading(s, id) && Finish(id) !in steps
    ensures Exec(s, steps).Some? && IsReading(Exec(s, steps).value, id)
    ensures CountLoads(steps, id) + Left(Exec(s, steps).value, id, n) <= Left(s, id, n)
    decreases |steps|
  {
    hide CoreInv, LockInv, ShortKeys, Left, SafeAcquire;
    if steps != [] {
      var step, s' := steps[0], Do(s, steps[0]);
      assert steps == [step] + steps[1..];
      CoreHolds(s);
      StepLeaves(s, step, id, n);
      StepKeeps(s, step);
      StepKeepsShort(s, step, n);
      RunLeaves(s', steps[1..], id, n);
    }
  }

  lemma CoreHolds(s: State)
    requires SysInv(s)
    ensures MemInv(s)
  {
  }

  lemma {:induction false} RunKeepsShort(s: State, steps: seq<Step>, n: nat)
    requires SysInv(s) && ShortKeys(s, n) && AllSafe(s, steps) && (forall step | step in steps :: InsertsShort(step, n))
    ensures Exec(s, steps).Some? && ShortKeys(Exec(s, steps).value, n)
    decreases |steps|
  {
    hide CoreInv, LockInv, ShortKeys, SafeAcquire;
    if steps != [] {
      var step := steps[0];
      assert steps == [step] + steps[1..];
      CoreHolds(s);
      StepKeeps(s, step);
      StepKeepsShort(s, step, n);
      RunKeepsShort(Do(s, step), steps[1..], n);
    }
  }

  /**
    A lookup loads at most one pointer for every bit of the longest key ever inserted, and one more,
    however many insertions and deletions come between its loads.
   */
  lemma LookupEnds(before: seq<Step>, s: State, during: seq<Step>, id: nat, n: nat)
    requires Runs(Start, before, s) && IsReading(s, id) && s.readers[id].pos.None?
    requires AllSafe(s, during) && Finish(id) !in during
    requires forall step | step in before + during :: InsertsShort(step, n)
    ensures CountLoads(during, id) <= 8 * n + 1
  {
    hide AllSafe, Exec;
    assert forall step | step in before :: step in before + during;
    assert forall step | step in during :: step in before + during;
    RunKeepsShort(Start, before, n);
    RunKeeps(Start, before);
    RunLeaves(s, during, id, n);
  }
}
