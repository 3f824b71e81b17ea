/**
  When the grace period fails: a read lock is loaded and acquired in two steps, and a deletion may
  come between them. Acquiring it can lead a reader to freed memory exactly if it is not safe in the
  sense of `SafeAcquire`. And how long a lookup can take, whatever the writers do meanwhile.
 */
module CritbitGrace {
  import opened Basics
  import opened CritbitBits
  import opened CritbitTrie
  import opened CritbitHeap
  import opened CritbitProtocol

  // ------------------------------------------------------------------ runs

  lemma One(s: State, step: Step)
    requires Enabled(s, step) && SafeAcquire(s, step)
    ensures Runs(s, [step], Do(s, step))
  {
    assert [step][1..] == [];
    assert AllSafe(Do(s, step), []);
  }

  lemma {:induction false} Then(s: State, p: seq<Step>, s1: State, q: seq<Step>, s2: State)
    requires Runs(s, p, s1) && Runs(s1, q, s2)
    ensures Runs(s, p + q, s2)
    decreases |p|
  {
    if p == [] {
      assert p + q == q;
    } else {
      assert (p + q)[0] == p[0] && (p + q)[1..] == p[1..] + q;
      Then(Do(s, p[0]), p[1..], s1, q, s2);
    }
  }

  /** A lone reader walks on to the leaf its key leads to; nothing but its position changes. */
  lemma {:induction false} WalkToLeaf(s: State, id: nat, p: Ptr, x: Addr, n: nat) returns (steps: seq<Step>)
    requires StandsAt(s, id, p) && Leads(s.heap.mem, p, s.readers[id].key, x, n)
    ensures Runs(s, steps, MoveReader(s, id, Ext(x)))
    decreases n
  {
    hide Bit, Position;
    if n == 0 {
      steps := [];
      assert MoveReader(s, id, Ext(x)) == s;
    } else {
      var q := NextPtr(s.heap.mem, p, s.readers[id].key);
      var s1 := Do(s, LoadChild(id));
      var rest := WalkToLeaf(s1, id, q, x, n - 1);
      assert MoveReader(s1, id, Ext(x)) == MoveReader(s, id, Ext(x));
      One(s, LoadChild(id));
      Then(s, [LoadChild(id)], s1, rest, MoveReader(s, id, Ext(x)));
      steps := [LoadChild(id)] + rest;
    }
  }

  /** Some run, with every further acquisition safe, leaves a reader at a cell that is not there. */
  ghost predicate CanFail(s: State) {
    exists steps, s', id, p :: Runs(s, steps, s') && StandsAt(s', id, p) && !Readable(s'.heap.mem, p)
  }

  lemma FailsBefore(s: State, steps: seq<Step>, s': State)
    requires Runs(s, steps, s') && CanFail(s')
    ensures CanFail(s)
  {
    hide Runs, Readable;
    var rest: seq<Step>, s'': State, id: nat, p: Ptr :|
      Runs(s', rest, s'') && StandsAt(s'', id, p) && !Readable(s''.heap.mem, p);
    Then(s, steps, s', rest, s'');
  }

  lemma FailsAfter(s: State, step: Step)
    requires Enabled(s, step) && SafeAcquire(s, step) && CanFail(Do(s, step))
    ensures CanFail(s)
  {
    hide CanFail;
    One(s, step);
    FailsBefore(s, [step], Do(s, step));
  }

  lemma SafeNeverFails(s: State)
    requires SysInv(s)
    ensures !CanFail(s)
  {
    hide CoreInv, LockInv, AllSafe, Exec, Readable;
    forall steps, s', id, p | Runs(s, steps, s') && StandsAt(s', id, p) ensures Readable(s'.heap.mem, p) {
      RunKeeps(s, steps);
      StandsWell(s', id, p);
    }
  }

  lemma StandsWell(s: State, id: nat, p: Ptr)
    requires SysInv(s) && StandsAt(s, id, p)
    ensures Readable(s.heap.mem, p)
  {
  }

  // ------------------------------------------------------------------ every reader can finish

  /** Memory is finite, and so are the positions tested in it. */
  lemma {:induction false} PosBound(m: Mem) returns (b: nat)
    ensures forall a | a in m && m[a].Inner? :: Pos(m[a].crit) < b
    decreases |m|
  {
    b := 0;
    if m != map[] {
      var a :| a in m;
      var m' := m - {a};
      b := PosBound(m');
      assert forall c | c in m && c != a :: c in m' && m'[c] == m[c];
      if m[a].Inner? && Pos(m[a].crit) >= b { b := Pos(m[a].crit) + 1; }
    }
  }

  /** From every cell a reader may get to, a key's bits lead to a leaf. */
  lemma {:induction false} LeadsToLeaf(s: State, p: Ptr, k: Key, b: nat) returns (x: Addr, n: nat)
    requires MemInv(s) && EdgeInv(s) && Followed(s, p)
    requires forall a | a in s.heap.mem && s.heap.mem[a].Inner? :: Pos(s.heap.mem[a].crit) < b
    ensures Leads(s.heap.mem, p, k, x, n)
    decreases if p.Int? then b - Pos(s.heap.mem[p.a].crit) else 0
  {
    hide Bit, Position, MemInv, EdgeInv, Graced;
    x, n := p.a, 0;
    if p.Int? {
      NextIsFollowed(s, p, k);
      x, n := LeadsToLeaf(s, NextPtr(s.heap.mem, p, k), k, b);
      n := n + 1;
    }
  }

  function Without(s: State, ids: set<nat>): State {
    s.(readers := s.readers - ids)
  }

  lemma FinishReader(s: State, id: nat) returns (steps: seq<Step>)
    requires CoreInv(s) && IsReading(s, id) && s.trie.Some?
    ensures Runs(s, steps, Without(s, {id})) && CoreInv(Without(s, {id}))
  {
    hide Runs, Bit, Position, MemInv, HistoryInv, EdgeInv, PathInv, PendingInv, Readable, Leads;
    LeaveKeeps(s, id);
    if s.readers[id].pos.None? {
      HeadIsThere(s);
      LoadHeadKeeps(s, id);
      One(s, LoadHead(id));
      var s1 := Do(s, LoadHead(id));
      var rest := FinishFrom(s1, id);
      assert Without(s1, {id}) == Without(s, {id});
      Then(s, [LoadHead(id)], s1, rest, Without(s, {id}));
      steps := [LoadHead(id)] + rest;
    } else {
      steps := FinishFrom(s, id);
    }
  }

  lemma HeadIsThere(s: State)
    requires MemInv(s) && s.trie.Some?
    ensures s.heap.head == PtrOf(s.trie.value) && s.heap.head != Null && Stored(s.heap.mem, s.trie.value)
  {
  }

  lemma FinishFrom(s: State, id: nat) returns (steps: seq<Step>)
    requires CoreInv(s) && IsReading(s, id) && s.readers[id].pos.Some?
    ensures Runs(s, steps, Without(s, {id}))
  {
    hide Runs, Bit, Position, MemInv, HistoryInv, EdgeInv, PathInv, PendingInv, Leads;
    var r := s.readers[id];
    var p := r.pos.value;
    StandingIsFollowed(s, id, p);
    var b := PosBound(s.heap.mem);
    var x, n := LeadsToLeaf(s, p, r.key, b);
    var walk := WalkToLeaf(s, id, p, x, n);
    var s1 := MoveReader(s, id, Ext(x));
    One(s1, Finish(id));
    assert Do(s1, Finish(id)) == Without(s, {id});
    Then(s, walk, s1, [Finish(id)], Without(s, {id}));
    steps := walk + [Finish(id)];
  }

  /** Readers that are under way can all finish. */
  lemma {:induction false} FinishReaders(s: State, ids: set<nat>) returns (steps: seq<Step>)
    requires CoreInv(s) && s.trie.Some? && forall i | i in ids :: IsReading(s, i)
    ensures Runs(s, steps, Without(s, ids)) && CoreInv(Without(s, ids))
    decreases |ids|
  {
    hide Runs, CoreInv;
    if ids == {} {
      steps := [];
      assert Without(s, ids) == s;
      Stay(s);
    } else {
      var i :| i in ids;
      var first := FinishReader(s, i);
      var s1 := Without(s, {i});
      var rest := FinishReaders(s1, ids - {i});
      assert Without(s1, ids - {i}) == Without(s, ids);
      Then(s, first, s1, rest, Without(s, ids));
      steps := first + rest;
    }
  }

  lemma Stay(s: State)
    ensures Runs(s, [], s)
  {
  }

  // ------------------------------------------------------------------ a deletion under a reader

  function Swapped(s: State): State
    requires s.writer.SwappingCur?
  {
    s.(cur := s.prev, prev := s.cur, writer := Free, pending := s.pending + s.writer.victims)
  }

  /** The rest of a deletion that has nobody to wait for. */
  lemma RotateLocks(s: State) returns (steps: seq<Step>)
    requires s.writer.SwappingCur? && s.cur != s.prev
    requires forall i | IsReading(s, i) :: s.readers[i].lock != s.cur
    ensures Runs(s, steps, Swapped(s))
  {
    hide Runs;
    var s1 := Do(s, SwapCur);
    var s2 := Do(s1, SwapPrev);
    assert forall i | IsReading(s2, i) :: IsReading(s, i) && s2.readers[i].lock == s.readers[i].lock;
    var s3 := Do(s2, Wait);
    One(s, SwapCur);
    One(s1, SwapPrev);
    One(s2, Wait);
    One(s3, ReleaseDelete);
    Then(s, [SwapCur], s1, [SwapPrev], s2);
    Then(s2, [Wait], s3, [ReleaseDelete], Swapped(s));
    Then(s, [SwapCur] + [SwapPrev], s2, [Wait] + [ReleaseDelete], Swapped(s));
    steps := [SwapCur] + [SwapPrev] + ([Wait] + [ReleaseDelete]);
  }

  /** A reader at the root can walk to any cell on its path. */
  lemma {:induction false} WalkOnPath(s: State, id: nat, t: Trie, a: Addr) returns (steps: seq<Step>, p: Ptr)
    requires StandsAt(s, id, PtrOf(t)) && Stored(s.heap.mem, t) && a in OnPath(t, s.readers[id].key)
    ensures !p.Null? && p.a == a && Runs(s, steps, MoveReader(s, id, p))
    decreases t
  {
    hide Bit, Position, Runs;
    if a == t.a {
      steps, p := [], PtrOf(t);
      assert MoveReader(s, id, p) == s;
      Stay(s);
    } else {
      var c := Child(t, Bit(s.readers[id].key, Pos(t.crit)));
      var s1 := Do(s, LoadChild(id));
      assert NextPtr(s.heap.mem, PtrOf(t), s.readers[id].key) == PtrOf(c);
      var rest;
      rest, p := WalkOnPath(s1, id, c, a);
      assert MoveReader(s1, id, p) == MoveReader(s, id, p);
      One(s, LoadChild(id));
      Then(s, [LoadChild(id)], s1, rest, MoveReader(s, id, p));
      steps := [LoadChild(id)] + rest;
    }
  }

  /** A reader on a lock nobody is going to wait for. */
  ghost predicate Unguarded(s: State, id: nat) {
    IsReading(s, id) && s.readers[id].pos.None? && s.readers[id].lock == s.prev && s.prev != s.cur
  }

  /** A lone reader can be standing on a cell when that is unlinked and freed. */
  lemma FreedUnderReader(s: State, id: nat, p: Ptr)
    requires MemInv(s) && s.writer.Deleting? && s.trie.Some? && Nearest(s.trie.value, s.writer.key).key == s.writer.key
    requires StandsAt(s, id, p) && s.readers[id].lock == s.prev && s.prev != s.cur
    requires forall i | IsReading(s, i) :: i == id
    requires !p.Null? && p.a in Unlinked(s.trie.value, s.writer.key)
    ensures CanFail(s)
  {
    hide Bit, Position, Unlink, Delete, Unlinked, Nearest, Runs, CanFail, CritbitTrie.Valid, Addrs;
    var s1 := Do(s, UnlinkStep);
    assert p.a in s1.writer.victims && s1.readers == s.readers && s1.cur == s.cur && s1.prev == s.prev;
    forall i | IsReading(s1, i) ensures s1.readers[i].lock != s1.cur { assert IsReading(s, i); }
    var swap := RotateLocks(s1);
    var s2 := Swapped(s1);
    var s3 := Do(s2, FreeCell(p.a));
    Stay(s3);
    assert StandsAt(s3, id, p) && !Readable(s3.heap.mem, p);
    FailsNow(s3, id, p);
    FailsAfter(s2, FreeCell(p.a));
    FailsBefore(s1, swap, s2);
    FailsAfter(s, UnlinkStep);
  }

  lemma FailsNow(s: State, id: nat, p: Ptr)
    requires StandsAt(s, id, p) && !Readable(s.heap.mem, p)
    ensures CanFail(s)
  {
    hide Runs;
    Stay(s);
  }

  lemma SameMemInv(s: State, s': State)
    requires MemInv(s) && SameMemory(s, s')
    ensures MemInv(s')
  {
  }

  lemma NotSparedFails(s: State, id: nat)
    requires CoreInv(s) && s.writer.Deleting? && Unguarded(s, id)
    requires !Spared(s.trie, s.writer.key, s.readers[id].key)
    ensures CanFail(s)
  {
    hide Runs, CanFail, Bit, Position, HistoryInv, EdgeInv, PositionInv, PathInv, PendingInv, MemInv, Unlinked,
      OnPath, Nearest, CritbitTrie.Valid, Addrs, Stored, LockInv, Distinct;
    var t := s.trie.value;
    var a :| a in OnPath(t, s.readers[id].key) && a in Unlinked(t, s.writer.key);
    var others := set i | i in s.readers && IsReading(s, i) && i != id;
    var clear := FinishReaders(s, others);
    var s1 := Without(s, others);
    HeadIsThere(s1);
    LoadHeadKeeps(s1, id);
    var s2 := Do(s1, LoadHead(id));
    var walk, p := WalkOnPath(s2, id, t, a);
    var s3 := MoveReader(s2, id, p);
    SameMemInv(s2, s3);
    FreedUnderReader(s3, id, p);
    FailsBefore(s2, walk, s3);
    FailsAfter(s1, LoadHead(id));
    FailsBefore(s, clear, s1);
  }

  lemma {:induction false} LeafOnPath(t: Trie, k: Key)
    ensures Nearest(t, k).a in OnPath(t, k)
  {
    hide Bit, Position;
    if t.Node? { LeafOnPath(Child(t, Bit(k, Pos(t.crit))), k); }
  }

  /** The deletion of a reader's own key unlinks the leaf the reader is going to. */
  lemma OwnKeyNotSpared(t: Option<Trie>, k: Key)
    requires t.Some? && Nearest(t.value, k).key == k
    ensures !Spared(t, k, k)
  {
    hide Bit, Position;
    LeafOnPath(t.value, k);
  }

  lemma InsertStoresKey(s: State, x: Addr, a: Addr)
    requires MemInv(s) && Enabled(s, PublishStep(x, a))
    ensures var t := DoPublish(s, x, a).trie; t.Some? && Nearest(t.value, s.writer.key).key == s.writer.key
  {
    hide Bit, Position, Publish, Insert, Represents, Nearest;
    var y := Leaf(x, s.writer.key, s.writer.value);
    InsertRefinesMap(s.trie, y, a);
    var t := Insert(s.trie, y, a);
    assert s.writer.key in CritbitTrie.Map(t);
    LookupIsMapLookup(t.value, s.writer.key);
  }

  /** With the mutex free, a writer may insert and delete the key that the unguarded reader looks up. */
  lemma FreeFails(s: State, id: nat)
    requires CoreInv(s) && s.writer.Free? && Unguarded(s, id)
    ensures CanFail(s)
  {
    hide CanFail, CoreInv, Bit, Position, Publish, Insert, Nearest, Spared, LockInv;
    var k := s.readers[id].key;
    var s1 := Do(s, LockInsert(k, 0));
    CoreKeeps(s, LockInsert(k, 0));
    var x := Above(s1.heap.mem.Keys);
    var publish := PublishStep(x, x + 1);
    CoreHasMemory(s1);
    var s2 := Do(s1, publish);
    CoreKeeps(s1, publish);
    InsertStoresKey(s1, x, x + 1);
    var s3 := Do(s2, ReleaseInsert);
    CoreKeeps(s2, ReleaseInsert);
    var s4 := Do(s3, LockDelete(k));
    CoreKeeps(s3, LockDelete(k));
    OwnKeyNotSpared(s4.trie, k);
    NotSparedFails(s4, id);
    FailsAfter(s3, LockDelete(k));
    FailsAfter(s2, ReleaseInsert);
    FailsAfter(s1, publish);
    FailsAfter(s, LockInsert(k, 0));
  }

  lemma CoreHasMemory(s: State)
    requires CoreInv(s)
    ensures MemInv(s) && Represents(s.heap, s.trie)
  {
  }

  /** What the holder of the mutex, if it is not at the deletion's write, does until it releases it. */
  lemma ReleaseFails(s: State, id: nat)
    requires CoreInv(s) && Unguarded(s, id)
    requires s.writer.Inserting? || s.writer.Inserted? || s.writer.Waited?
    requires s.writer.Waited? ==> MayRelease(s, ReleaseDelete)
    ensures CanFail(s)
    decreases s.writer.Inserting?
  {
    hide CanFail, CoreInv, Bit, Position, Publish, Insert, Nearest, Graced, LockInv;
    if s.writer.Inserting? {
      var x := Above(s.heap.mem.Keys);
      var publish := PublishStep(x, x + 1);
      CoreHasMemory(s);
      CoreKeeps(s, publish);
      ReleaseFails(Do(s, publish), id);
      FailsAfter(s, publish);
    } else {
      var step := if s.writer.Inserted? then ReleaseInsert else ReleaseDelete;
      CoreKeeps(s, step);
      FreeFails(Do(s, step), id);
      FailsAfter(s, step);
    }
  }

  /** Acquiring a lock that is not safe to acquire is unsafe, whoever else is active. */
  lemma StaleAcquireIsUnsafe(s: State, id: nat)
    requires SysInv(s) && Enabled(s, Acquire(id)) && !SafeAcquire(s, Acquire(id))
    ensures CanFail(Do(s, Acquire(id)))
  {
    hide CanFail, CoreInv, Spared;
    var s1 := Do(s, Acquire(id));
    CoreKeeps(s, Acquire(id));
    assert Unguarded(s1, id);
    if s.writer.Free? {
      FreeFails(s1, id);
    } else if s.writer.Deleting? {
      NotSparedFails(s1, id);
    } else {
      if s.writer.Waited? { StillGraced(s, id); }
      ReleaseFails(s1, id);
    }
  }

  lemma StillGraced(s: State, id: nat)
    requires SysInv(s) && Enabled(s, Acquire(id)) && s.writer.Waited?
    ensures MayRelease(Do(s, Acquire(id)), ReleaseDelete)
  {
    hide CoreInv;
    var s1 := Do(s, Acquire(id));
    forall a | a in s.writer.victims ensures Graced(s1, a) {
      assert Graced(s, a);
      forall i | IsReading(s1, i) ensures Past(s1, i, a) {
        if i != id { assert IsReading(s, i) && Past(s, i, a); }
      }
    }
  }

  /**
    Exactly when a lookup is safe: whatever the other readers and the writers are about, acquiring
    the lock can end at freed memory if and only if the lock was rotated out before and the mutex
    holder is not in the middle of a deletion that spares the reader.
   */
  lemma AcquireFailsExactly(s: State, id: nat)
    requires SysInv(s) && Enabled(s, Acquire(id))
    ensures CanFail(Do(s, Acquire(id))) <==> !SafeAcquire(s, Acquire(id))
  {
    hide SysInv, CanFail, SafeAcquire;
    if SafeAcquire(s, Acquire(id)) {
      StepKeeps(s, Acquire(id));
      SafeNeverFails(Do(s, Acquire(id)));
    } else {
      StaleAcquireIsUnsafe(s, id);
    }
  }

  /**
    Picking the lock and acquiring it are two steps of the code, and a whole deletion fits between
    them: a run of safe acquisitions leads to a state where the next acquisition is stale and unsafe.
   */
  lemma StaleLockIsReachable(k: Key, k': Key, v: Value) returns (s: State)
    requires k != k'
    ensures Reachable(s) && Enabled(s, Acquire(0)) && !SafeAcquire(s, Acquire(0))
    ensures CanFail(Do(s, Acquire(0)))
    ensures s.writer.Free? && s.trie == Some(Leaf(0, k, v)) && s.readers[0].lock != s.cur
  {
    hide Bit, Position, Diff, Runs;
    var s1, pre := InsertFirst(k, v);
    var s2 := Do(s1, Choose(0, k));
    var s3 := Do(s2, LockDelete(k'));
    var s4 := Do(s3, UnlinkStep);
    One(s1, Choose(0, k));
    One(s2, LockDelete(k'));
    One(s3, UnlinkStep);
    var swap := RotateLocks(s4);
    s := Swapped(s4);
    Then(Start, pre, s1, [Choose(0, k)], s2);
    Then(Start, pre + [Choose(0, k)], s2, [LockDelete(k')], s3);
    Then(Start, pre + [Choose(0, k)] + [LockDelete(k')], s3, [UnlinkStep], s4);
    Then(Start, pre + [Choose(0, k)] + [LockDelete(k')] + [UnlinkStep], s4, swap, s);
    assert s.readers == map[0 := Choosing(k, LeftLock)];
    ReachableInv(s);
    StaleAcquireIsUnsafe(s, 0);
  }

  /** Being late alone is not unsafe: in the next deletion, of an absent key, the same acquisition does no harm. */
  lemma LateCanBeSafe(k: Key, k': Key, v: Value) returns (s: State)
    requires k != k'
    ensures Reachable(s) && Enabled(s, Acquire(0)) && !Timely(s, s.readers[0].lock)
    ensures !CanFail(Do(s, Acquire(0)))
  {
    hide Runs, CanFail, CoreInv, LockInv;
    var s0 := StaleLockIsReachable(k, k', v);
    s := Do(s0, LockDelete(k'));
    ReachedNext(s0, LockDelete(k'));
    ReachableInv(s);
    AcquireFailsExactly(s, 0);
  }

  lemma ReachedNext(s: State, step: Step)
    requires Reachable(s) && Enabled(s, step) && SafeAcquire(s, step)
    ensures Reachable(Do(s, step))
  {
    hide Runs;
    var steps :| Runs(Start, steps, s);
    One(s, step);
    Then(Start, steps, s, [step], Do(s, step));
  }

  lemma InsertFirst(k: Key, v: Value) returns (s: State, steps: seq<Step>)
    ensures Runs(Start, steps, s)
    ensures s == Start.(heap := Heap(map[0 := Str(k, v)], Ext(0)), trie := Some(Leaf(0, k, v)),
                        history := [map[], map[k := v]], birth := map[0 := 1])
  {
    hide Bit, Position, Diff, Runs;
    var s1 := Do(Start, LockInsert(k, v));
    var s2 := Do(s1, PublishStep(0, 1));
    s := Do(s2, ReleaseInsert);
    One(Start, LockInsert(k, v));
    One(s1, PublishStep(0, 1));
    One(s2, ReleaseInsert);
    Then(Start, [LockInsert(k, v)], s1, [PublishStep(0, 1)], s2);
    Then(Start, [LockInsert(k, v)] + [PublishStep(0, 1)], s2, [ReleaseInsert], s);
    steps := [LockInsert(k, v)] + [PublishStep(0, 1)] + [ReleaseInsert];
  }
}
