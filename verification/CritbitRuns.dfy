/**
  What concurrent runs mean to the callers: the maps the tree goes through are those of the insertions
  and deletions made, one after the other; every lookup answers as one of the maps that were current
  during it; and when a read lock is chosen and acquired at once, no reader meets freed memory.
 */
module CritbitRuns {
  import opened Basics
  import opened CritbitBits
  import opened CritbitTrie
  import opened CritbitHeap
  import opened CritbitProtocol

  // ------------------------------------------------------------------ a plain map

  /** The call whose write is still to come. */
  datatype Call = NoCall | InsertCall(k: Key, v: Value) | DeleteCall(k: Key)

  /** The maps so far, the last being the present one. */
  datatype Plain = Plain(maps: seq<map<Key, Value>>, call: Call)

  ghost const Empty: Plain := Plain([map[]], NoCall)

  ghost function Now(p: Plain): map<Key, Value> {
    if p.maps == [] then map[] else p.maps[|p.maps| - 1]
  }

  /** An insertion takes effect when it is published, a deletion when its node is unlinked. */
  ghost function PlainStep(p: Plain, step: Step): Plain {
    match step
    case LockInsert(k, v) => p.(call := InsertCall(k, v))
    case LockDelete(k) => p.(call := DeleteCall(k))
    case PublishStep(_, _) =>
      if p.call.InsertCall? && p.call.k !in Now(p) then p.(maps := p.maps + [Now(p)[p.call.k := p.call.v]]) else p
    case UnlinkStep =>
      if p.call.DeleteCall? && p.call.k in Now(p) then p.(maps := p.maps + [Now(p) - {p.call.k}]) else p
    case _ => p
  }

  ghost function PlainRun(p: Plain, steps: seq<Step>): Plain
    decreases |steps|
  {
    if steps == [] then p else PlainRun(PlainStep(p, steps[0]), steps[1..])
  }

  /** The tree has been through the same maps, and the holder of the mutex is about to do the same. */
  ghost predicate Same(s: State, p: Plain) {
    && s.history == p.maps
    && (s.writer.Inserting? ==> p.call == InsertCall(s.writer.key, s.writer.value))
    && (s.writer.Deleting? ==> p.call == DeleteCall(s.writer.key))
  }

  // ------------------------------------------------------------------ one write

  /** Publishing inserts the pair the caller gave, or changes nothing if the key is there. */
  lemma PublishIsMapInsert(s: State, x: Addr, a: Addr)
    requires CoreInv(s) && Enabled(s, PublishStep(x, a))
    ensures var m, k := s.history[|s.history| - 1], s.writer.key;
            Do(s, PublishStep(x, a)).history == if k in m then s.history else s.history + [m[k := s.writer.value]]
  {
    hide Bit, Position, EdgeInv, PositionInv, PathInv, PendingInv, Publish, Nearest, Represents, LeafHistory;
    PresentIsNearest(s, s.writer.key);
    InsertRefinesMap(s.trie, Leaf(x, s.writer.key, s.writer.value), a);
  }

  lemma PresentIsNearest(s: State, k: Key)
    requires CoreInv(s)
    ensures |s.history| > 0 && s.history[|s.history| - 1] == CritbitTrie.Map(s.trie)
    ensures CritbitTrie.Valid(s.trie)
    ensures k in CritbitTrie.Map(s.trie) <==> s.trie.Some? && Nearest(s.trie.value, k).key == k
  {
    hide Bit, Position, EdgeInv, PositionInv, PathInv, PendingInv, Represents, LeafHistory;
    if s.trie.Some? { LookupIsMapLookup(s.trie.value, k); }
  }

  /** Unlinking deletes the key the caller gave, or changes nothing if it is not there. */
  lemma UnlinkIsMapDelete(s: State)
    requires CoreInv(s) && Enabled(s, UnlinkStep)
    ensures var m, k := s.history[|s.history| - 1], s.writer.key;
            Do(s, UnlinkStep).history == if k in m then s.history + [m - {k}] else s.history
  {
    hide Bit, Position, EdgeInv, PositionInv, PathInv, PendingInv, Unlink, Nearest, Represents, LeafHistory, Unlinked;
    PresentIsNearest(s, s.writer.key);
    DeleteRefinesMap(s.trie, s.writer.key);
  }

  lemma StepSame(s: State, p: Plain, step: Step)
    requires CoreInv(s) && Enabled(s, step) && Same(s, p)
    ensures Same(Do(s, step), PlainStep(p, step))
  {
    hide CoreInv, Represents, NextPtr, Unlink, Publish, Insert, Delete, Nearest, CritbitTrie.Map;
    match step {
      case PublishStep(x, a) =>
        PresentIsNearest(s, s.writer.key);
        PublishIsMapInsert(s, x, a);
      case UnlinkStep =>
        PresentIsNearest(s, s.writer.key);
        UnlinkIsMapDelete(s);
      case _ =>
    }
  }

  lemma {:induction false} RunSame(s: State, p: Plain, steps: seq<Step>)
    requires SysInv(s) && AllSafe(s, steps) && Same(s, p)
    ensures Exec(s, steps).Some? && Same(Exec(s, steps).value, PlainRun(p, steps))
    decreases |steps|
  {
    hide CoreInv, LockInv, Same, SafeAcquire;
    if steps != [] {
      StepKeeps(s, steps[0]);
      StepSame(s, p, steps[0]);
      RunSame(Do(s, steps[0]), PlainStep(p, steps[0]), steps[1..]);
    }
  }

  /** The maps the tree stands for in a run are those of a plain map under the calls of the run. */
  lemma HistoryIsPlain(steps: seq<Step>, s: State)
    requires Runs(Start, steps, s)
    ensures s.history == PlainRun(Empty, steps).maps
  {
    hide AllSafe, Exec;
    StartIsSound();
    RunSame(Start, Empty, steps);
  }

  lemma StartIsSound()
    ensures SysInv(Start) && Same(Start, Empty)
  {
  }

  // ------------------------------------------------------------------ lookups

  /** What critbit_get makes of the leaf it has come to. */
  function Answer(s: State, id: nat, key: Key): Option<Value>
    requires IsReading(s, id) && s.readers[id].pos.Some? && s.readers[id].pos.value.Ext?
    requires Readable(s.heap.mem, s.readers[id].pos.value)
  {
    var c := s.heap.mem[s.readers[id].pos.value.a];
    if c.key == key then Some(c.value) else None
  }

  ghost function Lookup(m: map<Key, Value>, key: Key): Option<Value> {
    if key in m then Some(m[key]) else None
  }

  lemma {:induction false} RunsSplit(s: State, p: seq<Step>, q: seq<Step>, s': State) returns (t: State)
    requires Runs(s, p + q, s')
    ensures Runs(s, p, t) && Runs(t, q, s')
    decreases |p|
  {
    hide SafeAcquire;
    if p == [] {
      assert p + q == q;
      t := s;
    } else {
      assert (p + q)[0] == p[0] && (p + q)[1..] == p[1..] + q;
      t := RunsSplit(Do(s, p[0]), p[1..], q, s');
    }
  }

  lemma {:induction false} PlainSplit(m: Plain, p: seq<Step>, q: seq<Step>)
    ensures PlainRun(m, p + q) == PlainRun(PlainRun(m, p), q)
    decreases |p|
  {
    if p == [] {
      assert p + q == q;
    } else {
      assert (p + q)[0] == p[0] && (p + q)[1..] == p[1..] + q;
      PlainSplit(PlainStep(m, p[0]), p[1..], q);
    }
  }

  /** A reader keeps its key and the beginning of its read until it ends. */
  lemma {:induction false} ReaderStays(s: State, steps: seq<Step>, s': State, id: nat)
    requires Runs(s, steps, s') && id in s.readers && Finish(id) !in steps
    ensures id in s'.readers && s'.readers[id].key == s.readers[id].key
    ensures s.readers[id].Reading? ==> s'.readers[id].Reading? && s'.readers[id].begin == s.readers[id].begin
    decreases |steps|
  {
    hide SafeAcquire, Represents, NextPtr, Unlink, Publish, Insert, Delete, Nearest, CritbitTrie.Map, Unlinked;
    if steps != [] {
      assert steps == [steps[0]] + steps[1..];
      ReaderStays(Do(s, steps[0]), steps[1..], s', id);
    }
  }

  /** The maps of a run only grow in number, one at a time: each later one was the present one at some point. */
  lemma {:induction false} MapWasPresent(p: Plain, steps: seq<Step>, n: nat) returns (i: nat)
    requires p.maps != [] && |p.maps| - 1 <= n < |PlainRun(p, steps).maps|
    ensures i <= |steps| && PlainRun(p, steps).maps[n] == Now(PlainRun(p, steps[..i]))
    decreases |steps|
  {
    MapsGrow(p, steps);
    if n == |p.maps| - 1 {
      i := 0;
      assert steps[..0] == [];
    } else {
      i := MapWasPresent(PlainStep(p, steps[0]), steps[1..], n);
      assert steps[..i + 1][0] == steps[0] && steps[..i + 1][1..] == steps[1..][..i];
      i := i + 1;
    }
  }

  lemma {:induction false} MapsGrow(p: Plain, steps: seq<Step>)
    ensures p.maps <= PlainRun(p, steps).maps
    decreases |steps|
  {
    if steps != [] { MapsGrow(PlainStep(p, steps[0]), steps[1..]); }
  }

  /**
    A lookup answers as the plain map did at some point between the acquisition of its lock and its end.
   */
  lemma LookupAnswers(pre: seq<Step>, id: nat, key: Key, mid: seq<Step>, during: seq<Step>, s: State) returns (i: nat)
    requires Runs(Start, pre + [Choose(id, key)] + mid + [Acquire(id)] + during, s)
    requires Finish(id) !in mid && Finish(id) !in during && Enabled(s, Finish(id))
    ensures Readable(s.heap.mem, s.readers[id].pos.value) && i <= |during|
    ensures var before := pre + [Choose(id, key)] + mid + [Acquire(id)];
            Answer(s, id, key) == Lookup(Now(PlainRun(Empty, before + during[..i])), key)
  {
    hide Runs, PlainRun, SafeAcquire, Reachable;
    var before := pre + [Choose(id, key)] + mid + [Acquire(id)];
    var s1 := Acquired(pre, id, key, mid, during, s);
    ReaderStays(s1, during, s, id);
    HistoryIsPlain(before, s1);
    HistoryIsPlain(before + during, s);
    ReachedBy(before + during, s);
    LookupIsLinearizable(s, id);
    var n :| s.readers[id].begin <= n < |s.history| &&
      Result(s, id) == (if key in s.history[n] then Some(s.history[n][key]) else None);
    PlainSplit(Empty, before, during);
    var p := PlainRun(Empty, before);
    i := MapWasPresent(p, during, n);
    PlainSplit(Empty, before, during[..i]);
  }

  lemma ReachedBy(steps: seq<Step>, s: State)
    requires Runs(Start, steps, s)
    ensures Reachable(s)
  {
  }

  /** The state right after the acquisition: the reader has the key it was called with, and begins now. */
  lemma Acquired(pre: seq<Step>, id: nat, key: Key, mid: seq<Step>, during: seq<Step>, s: State) returns (s1: State)
    requires Runs(Start, pre + [Choose(id, key)] + mid + [Acquire(id)] + during, s) && Finish(id) !in mid
    ensures Runs(Start, pre + [Choose(id, key)] + mid + [Acquire(id)], s1) && Runs(s1, during, s)
    ensures IsReading(s1, id) && s1.readers[id].key == key
    ensures s1.history != [] && s1.readers[id].begin == |s1.history| - 1
  {
    hide Runs, Reachable;
    s1 := RunsSplit(Start, pre + [Choose(id, key)] + mid + [Acquire(id)], during, s);
    var s2 := RunsSplit(Start, pre + [Choose(id, key)] + mid, [Acquire(id)], s1);
    var s3 := RunsSplit(Start, pre + [Choose(id, key)], mid, s2);
    var s4 := RunsSplit(Start, pre, [Choose(id, key)], s3);
    OneStep(s4, Choose(id, key), s3);
    ReaderStays(s3, mid, s2, id);
    OneStep(s2, Acquire(id), s1);
    ReachedBy(pre + [Choose(id, key)] + mid + [Acquire(id)], s1);
    HasHistory(s1);
  }

  lemma OneStep(s: State, step: Step, s': State)
    requires Runs(s, [step], s')
    ensures Enabled(s, step) && s' == Do(s, step)
  {
    assert [step][1..] == [];
    assert Exec(Do(s, step), []) == Some(Do(s, step));
  }

  lemma HasHistory(s: State)
    requires Reachable(s)
    ensures s.history != []
  {
    ReachableInv(s);
  }

  // ------------------------------------------------------------------ locks chosen and acquired at once

  /** The lock that is chosen is the current one: acquired at once, it is acquired in time. */
  lemma ChosenIsTimely(s: State, id: nat, key: Key)
    requires Enabled(s, Choose(id, key))
    ensures var s' := Do(s, Choose(id, key));
            && id in s'.readers && Timely(s', s'.readers[id].lock)
            && Enabled(s', Acquire(id)) && SafeAcquire(s', Acquire(id))
  {
  }

  /** Every acquisition follows the choice of its lock directly. */
  predicate AtOnce(steps: seq<Step>) {
    forall i | 0 <= i < |steps| && steps[i].Acquire? ::
      i > 0 && steps[i - 1].Choose? && steps[i - 1].id == steps[i].id
  }

  /** A run whose steps are all enabled in their turn, with no condition on acquisitions. */
  ghost predicate RunsAtOnce(steps: seq<Step>, s: State) {
    AtOnce(steps) && Exec(Start, steps) == Some(s)
  }

  lemma {:induction false} AtOnceIsTimely(s: State, steps: seq<Step>)
    requires AtOnce(steps) && Exec(s, steps).Some?
    ensures AllTimely(s, steps)
    decreases |steps|
  {
    hide Represents, NextPtr, Unlink, Publish, Insert, Delete, Nearest, CritbitTrie.Map, Unlinked, Timely;
    if steps != [] {
      var rest, s1 := steps[1..], Do(s, steps[0]);
      assert !steps[0].Acquire?;
      if rest != [] && rest[0].Acquire? {
        assert steps[1] == rest[0];
        ChosenIsTimely(s, steps[0].id, steps[0].key);
        assert rest[1..] == steps[2..];
        assert AtOnce(rest[1..]) by { assert forall i | 0 <= i < |rest[1..]| :: rest[1..][i] == steps[i + 2]; }
        AtOnceIsTimely(Do(s1, rest[0]), rest[1..]);
      } else {
        assert AtOnce(rest) by { assert forall i | 0 <= i < |rest| :: rest[i] == steps[i + 1]; }
        AtOnceIsTimely(s1, rest);
      }
    }
  }

  /** Such runs are reachable in the sense of all theorems about safe acquisitions. */
  lemma AtOnceIsSafe(steps: seq<Step>, s: State)
    requires RunsAtOnce(steps, s)
    ensures AllTimely(Start, steps) && Runs(Start, steps, s) && Reachable(s)
  {
    hide AllTimely, AllSafe, Exec, AtOnce;
    AtOnceIsTimely(Start, steps);
    StartIsSound();
    StartIsTimely();
    TimelyRun(Start, steps);
  }

  lemma StartIsTimely()
    ensures TimelyInv(Start)
  {
  }

  /** Grace period, lock choice and acquisition being atomic: no reader is at, or next to, freed memory. */
  lemma AtOnceNeverTouchesFreedMemory(steps: seq<Step>, s: State, id: nat, p: Ptr)
    requires RunsAtOnce(steps, s) && StandsAt(s, id, p)
    ensures Readable(s.heap.mem, p) && p.a !in s.pending
    ensures p.Int? ==> var q := NextPtr(s.heap.mem, p, s.readers[id].key);
                       Readable(s.heap.mem, q) && q.a !in s.pending
  {
    hide RunsAtOnce, Runs, Reachable;
    AtOnceIsSafe(steps, s);
    NoReaderTouchesFreedMemory(s, id, p);
  }

  /** At the start of a deletion nobody holds the previous lock; what is freed is older than every read. */
  lemma AtOnceDeletionWaits(steps: seq<Step>, s: State, id: nat)
    requires RunsAtOnce(steps, s) && IsReading(s, id)
    ensures s.writer.Free? || s.writer.Deleting? ==> s.readers[id].lock != s.prev
    ensures forall a | a in s.pending || (s.writer.Waited? && a in s.writer.victims) ::
              a in s.dead && s.dead[a] <= s.readers[id].begin
  {
    hide Runs, Reachable, AllTimely, AtOnce, Exec;
    AtOnceIsSafe(steps, s);
    DeletionWaitsForOlderReaders(steps, s, id);
  }

  // ------------------------------------------------------------------ memory

  /** What has been unlinked and not yet freed is in the hands of the writer, or is about to be freed. */
  ghost predicate Accounted(s: State) {
    s.dead.Keys == Victims(s.writer) + s.pending
  }

  lemma StepAccounts(s: State, step: Step)
    requires CoreInv(s) && Accounted(s) && Enabled(s, step)
    ensures Accounted(Do(s, step))
  {
    hide Bit, Position, MemInv, HistoryInv, EdgeInv, PositionInv, PathInv, BeginInv, Graced, Represents, NextPtr,
      Unlink, Publish, Insert, Delete, Nearest, CritbitTrie.Map, Unlinked;
  }

  lemma {:induction false} RunAccounts(s: State, steps: seq<Step>)
    requires SysInv(s) && AllSafe(s, steps) && Accounted(s)
    ensures Exec(s, steps).Some? && Accounted(Exec(s, steps).value)
    decreases |steps|
  {
    hide CoreInv, LockInv, Accounted, SafeAcquire;
    if steps != [] {
      StepKeeps(s, steps[0]);
      StepAccounts(s, steps[0]);
      RunAccounts(Do(s, steps[0]), steps[1..]);
    }
  }

  /** Nothing leaks: all memory is the tree, what a deletion has just unlinked, and what is about to be freed. */
  lemma NothingLeaks(s: State)
    requires Reachable(s)
    ensures s.heap.mem.Keys == AddrsOf(s.trie) + Victims(s.writer) + s.pending
  {
    hide AllSafe;
    StartIsSound();
    var steps :| Runs(Start, steps, s);
    RunAccounts(Start, steps);
    ReachableInv(s);
  }
}
