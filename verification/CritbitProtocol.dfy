/**
  Lock-free lookups beside one mutex-protected writer, and the two read locks by which a deletion
  waits for older readers before it frees memory.

  The system is a state machine. A reader takes one step to pick the current read lock, one to
  acquire it, and one per pointer it loads. A writer publishes an insertion or an unlinking with one
  pointer write (`Publish`, `Unlink`); a deletion then swaps the two lock pointers in two steps,
  waits until the old lock is free, releases the mutex, and frees its cells one at a time.
 */
module CritbitProtocol {
  import opened Basics
  import opened CritbitBits
  import opened CritbitTrie
  import opened CritbitHeap

  datatype Reader =
    | Choosing(key: Key, lock: Lock)
    | Reading(key: Key, lock: Lock, begin: nat, pos: Option<Ptr>)

  /** What the holder of the mutex is about to do. */
  datatype Writer =
    | Free
    | Inserting(key: Key, value: Value)
    | Inserted
    | Deleting(key: Key)
    | SwappingCur(victims: set<Addr>)
    | SwappingPrev(victims: set<Addr>, lock: Lock)
    | Waiting(victims: set<Addr>, lock: Lock)
    | Waited(victims: set<Addr>)

  /**
    `trie` is what the reachable memory holds; `history` lists the maps the tree has stood for, the
    last being the present one. For an unlinked cell `dead` gives the index of the first map without
    it, for a leaf `birth` the index of the first map with it. `pending` cells may be freed.
   */
  datatype State = State(
    heap: Heap,
    trie: Option<Trie>,
    history: seq<map<Key, Value>>,
    birth: map<Addr, nat>,
    dead: map<Addr, nat>,
    cur: Lock,
    prev: Lock,
    writer: Writer,
    pending: set<Addr>,
    readers: map<nat, Reader>)

  datatype Step =
    | Choose(id: nat, key: Key)
    | Acquire(id: nat)
    | LoadHead(id: nat)
    | LoadChild(id: nat)
    | Finish(id: nat)
    | LockInsert(k: Key, v: Value)
    | PublishStep(x: Addr, a: Addr)
    | ReleaseInsert
    | LockDelete(k: Key)
    | UnlinkStep
    | SwapCur
    | SwapPrev
    | Wait
    | ReleaseDelete
    | FreeCell(a: Addr)

  ghost const Start: State :=
    State(Heap(map[], Null), None, [map[]], map[], map[], LeftLock, RightLock, Free, {}, map[])

  predicate IsReading(s: State, id: nat) {
    id in s.readers && s.readers[id].Reading?
  }

  /** The reader stands at `p`. */
  predicate StandsAt(s: State, id: nat, p: Ptr) {
    IsReading(s, id) && s.readers[id].pos == Some(p)
  }

  /** The cell that p refers to is in memory and of the kind its tag says. */
  predicate Readable(m: Mem, p: Ptr) {
    match p
    case Null => false
    case Ext(a) => a in m && m[a].Str?
    case Int(a) => a in m && m[a].Inner?
  }

  function NextPtr(m: Mem, p: Ptr, k: Key): Ptr
    requires p.Int? && Readable(m, p)
  {
    ChildPtr(m[p.a], Bit(k, Pos(m[p.a].crit)))
  }

  ghost predicate Enabled(s: State, step: Step) {
    match step
    case Choose(id, key) => id !in s.readers
    case Acquire(id) => id in s.readers && s.readers[id].Choosing?
    case LoadHead(id) => IsReading(s, id) && s.readers[id].pos.None? && s.heap.head != Null
    case LoadChild(id) => IsReading(s, id) && s.readers[id].pos.Some? && s.readers[id].pos.value.Int?
                          && Readable(s.heap.mem, s.readers[id].pos.value)
    case Finish(id) => IsReading(s, id) && s.readers[id].pos.Some? && s.readers[id].pos.value.Ext?
    case LockInsert(_, _) => s.writer.Free?
    case PublishStep(x, a) => s.writer.Inserting? && x !in s.heap.mem && a !in s.heap.mem && a != x
                              && Represents(s.heap, s.trie)
    case ReleaseInsert => s.writer.Inserted?
    case LockDelete(_) => s.writer.Free?
    case UnlinkStep => s.writer.Deleting? && Represents(s.heap, s.trie)
    case SwapCur => s.writer.SwappingCur?
    case SwapPrev => s.writer.SwappingPrev?
    case Wait => s.writer.Waiting? && forall id | IsReading(s, id) :: s.readers[id].lock != s.writer.lock
    case ReleaseDelete => s.writer.Waited?
    case FreeCell(a) => a in s.pending
  }

  ghost function MoveReader(s: State, id: nat, p: Ptr): State
    requires IsReading(s, id)
  {
    s.(readers := s.readers[id := s.readers[id].(pos := Some(p))])
  }

  ghost function DoPublish(s: State, b: Addr, a: Addr): State
    requires Enabled(s, PublishStep(b, a))
  {
    var x := Leaf(b, s.writer.key, s.writer.value);
    if s.trie.Some? && Nearest(s.trie.value, x.key).key == x.key then
      s.(writer := Inserted)
    else
      var t := Insert(s.trie, x, a);
      s.(heap := Publish(s.heap, s.trie, x, a), trie := t, history := s.history + [Map(t)],
         birth := s.birth[b := |s.history|], writer := Inserted)
  }

  ghost function DoUnlink(s: State): State
    requires Enabled(s, UnlinkStep)
  {
    var k := s.writer.key;
    if s.trie.Some? && Nearest(s.trie.value, k).key == k then
      var t := Delete(s.trie, k);
      var victims := Unlinked(s.trie.value, k);
      s.(heap := Unlink(s.heap, s.trie, k), trie := t, history := s.history + [Map(t)],
         dead := s.dead + (map a | a in victims :: |s.history|), writer := SwappingCur(victims))
    else
      s.(writer := SwappingCur({}))
  }

  ghost function Do(s: State, step: Step): State
    requires Enabled(s, step)
  {
    match step
    case Choose(id, key) => s.(readers := s.readers[id := Choosing(key, s.cur)])
    case Acquire(id) =>
      s.(readers := s.readers[id := Reading(s.readers[id].key, s.readers[id].lock, AsNat(|s.history| - 1), None)])
    case LoadHead(id) => MoveReader(s, id, s.heap.head)
    case LoadChild(id) =>
      MoveReader(s, id, NextPtr(s.heap.mem, s.readers[id].pos.value, s.readers[id].key))
    case Finish(id) => s.(readers := s.readers - {id})
    case LockInsert(k, v) => s.(writer := Inserting(k, v))
    case PublishStep(x, a) => DoPublish(s, x, a)
    case ReleaseInsert => s.(writer := Free)
    case LockDelete(k) => s.(writer := Deleting(k))
    case UnlinkStep => DoUnlink(s)
    case SwapCur => s.(cur := s.prev, writer := SwappingPrev(s.writer.victims, s.cur))
    case SwapPrev => s.(prev := s.writer.lock, writer := Waiting(s.writer.victims, s.writer.lock))
    case Wait => s.(writer := Waited(s.writer.victims))
    case ReleaseDelete => s.(writer := Free, pending := s.pending + s.writer.victims)
    case FreeCell(a) =>
      s.(heap := s.heap.(mem := s.heap.mem - {a}), dead := s.dead - {a}, birth := s.birth - {a},
         pending := s.pending - {a})
  }

  function AsNat(n: int): nat {
    if n < 0 then 0 else n
  }

  /** The lock is current, or a deletion is about to wait for it or waits for it already. */
  predicate Timely(s: State, lock: Lock) {
    lock == s.cur || s.writer.SwappingCur? || s.writer.SwappingPrev? || s.writer.Waiting?
  }

  /** The addresses a lookup of `k` passes on its way down the trie. */
  ghost function OnPath(t: Trie, k: Key): set<Addr> {
    {t.a} + if t.Leaf? then {} else OnPath(Child(t, Bit(k, Pos(t.crit))), k)
  }

  /** A lookup of `k` passes nothing that the deletion of `victim` is going to unlink. */
  ghost predicate Spared(t: Option<Trie>, victim: Key, k: Key) {
    t.Some? && Nearest(t.value, victim).key == victim ==> OnPath(t.value, k) !! Unlinked(t.value, victim)
  }

  /**
    The reader acquires a lock in time, or else after it was rotated out, but while the one deletion
    that does not wait for it unlinks nothing on the reader's way.
   */
  ghost predicate SafeAcquire(s: State, step: Step) {
    step.Acquire? && step.id in s.readers ==>
      || Timely(s, s.readers[step.id].lock)
      || (s.writer.Deleting? && Spared(s.trie, s.writer.key, s.readers[step.id].key))
  }

  /** The state after the steps from `s`, if each is enabled in its turn. */
  ghost function Exec(s: State, steps: seq<Step>): Option<State>
    decreases |steps|
  {
    if steps == [] then Some(s)
    else if Enabled(s, steps[0]) then Exec(Do(s, steps[0]), steps[1..])
    else None
  }

  /** Every acquisition of a read lock along the steps is safe. */
  ghost predicate AllSafe(s: State, steps: seq<Step>)
    decreases |steps|
  {
    steps == [] || (Enabled(s, steps[0]) && SafeAcquire(s, steps[0]) && AllSafe(Do(s, steps[0]), steps[1..]))
  }

  /** The steps lead from `s` to `s'`, every acquisition being safe. */
  ghost predicate Runs(s: State, steps: seq<Step>, s': State) {
    AllSafe(s, steps) && Exec(s, steps) == Some(s')
  }

  // ------------------------------------------------------------------ invariant

  ghost predicate MemInv(s: State) {
    && Represents(s.heap, s.trie)
    && CritbitTrie.Valid(s.trie)
    && s.heap.mem.Keys == AddrsOf(s.trie) + s.dead.Keys
    && AddrsOf(s.trie) !! s.dead.Keys
  }

  /** A leaf's pair is in every map from its birth until it is unlinked. */
  ghost predicate LeafHistory(s: State, a: Addr)
    requires a in s.heap.mem && s.heap.mem[a].Str?
  {
    var end := if a in s.dead then s.dead[a] else |s.history|;
    && a in s.birth && s.birth[a] < end <= |s.history|
    && forall n: nat | s.birth[a] <= n < end ::
         s.heap.mem[a].key in s.history[n] && s.history[n][s.heap.mem[a].key] == s.heap.mem[a].value
  }

  ghost predicate HistoryInv(s: State) {
    && s.history != []
    && s.history[|s.history| - 1] == Map(s.trie)
    && (forall a | a in s.dead :: s.dead[a] < |s.history|)
    && (forall a | a in s.heap.mem && s.heap.mem[a].Str? :: LeafHistory(s, a))
  }

  /** From `p` no way leads to the unlinked cell: `p` was unlinked later, or not at all. */
  ghost predicate PastAt(dead: map<Addr, nat>, p: Ptr, a: Addr)
    requires a in dead
  {
    !p.Null? && p.a in dead ==> dead[p.a] > dead[a]
  }

  ghost predicate Past(s: State, id: nat, a: Addr)
    requires IsReading(s, id) && a in s.dead
  {
    s.readers[id].pos.Some? ==> PastAt(s.dead, s.readers[id].pos.value, a)
  }

  /** No reader can get to the unlinked cell any more. */
  ghost predicate Graced(s: State, a: Addr) {
    a in s.dead && forall id | IsReading(s, id) :: Past(s, id, a)
  }

  /** A link leads to a leaf or to a node that tests a later position. */
  ghost predicate Deeper(m: Mem, a: Addr, p: Ptr) {
    p.Int? && a in m && m[a].Inner? && Readable(m, p) ==> Pos(m[p.a].crit) > Pos(m[a].crit)
  }

  /** The child is in memory and further down, and it was not unlinked before its parent. */
  ghost predicate EdgeOk(s: State, a: Addr, p: Ptr) {
    && Readable(s.heap.mem, p) && Deeper(s.heap.mem, a, p)
    && (p.a in s.dead ==> a in s.dead && s.dead[p.a] >= s.dead[a])
  }

  /** Links of unlinked nodes that a reader may still follow. */
  ghost predicate EdgeInv(s: State) {
    forall a, dir | a in s.dead && a in s.heap.mem && s.heap.mem[a].Inner? && !Graced(s, a) ::
      EdgeOk(s, a, ChildPtr(s.heap.mem[a], dir))
  }

  /** The cell a reader stands at is in memory and was reachable at some moment of the read. */
  ghost predicate PositionInv(s: State) {
    forall id, p | StandsAt(s, id, p) ::
      Readable(s.heap.mem, p) && (p.a in s.dead ==> s.dead[p.a] > s.readers[id].begin)
  }

  ghost predicate BeginInv(s: State) {
    forall id | IsReading(s, id) :: s.readers[id].begin < |s.history|
  }

  function Victims(w: Writer): set<Addr> {
    if w.SwappingCur? || w.SwappingPrev? || w.Waiting? || w.Waited? then w.victims else {}
  }

  function OtherLock(l: Lock): Lock {
    if l == LeftLock then RightLock else LeftLock
  }

  ghost predicate PendingInv(s: State) {
    && Victims(s.writer) <= s.dead.Keys && s.pending <= s.dead.Keys
    && Victims(s.writer) !! s.pending
    && (forall a | a in s.pending :: Graced(s, a))
  }

  /** The reader has not left the way from the root to its leaf. */
  ghost predicate OnItsPath(t: Option<Trie>, r: Reader)
    requires r.Reading?
  {
    r.pos.Some? ==> t.Some? && !r.pos.value.Null? && r.pos.value.a in OnPath(t.value, r.key)
  }

  /** Readers on the previous lock stay clear of what the holder of the mutex is going to unlink. */
  ghost predicate KeepsClear(s: State, id: nat)
    requires s.writer.Deleting? && IsReading(s, id)
  {
    Spared(s.trie, s.writer.key, s.readers[id].key) && OnItsPath(s.trie, s.readers[id])
  }

  /**
    Before a deletion no reader holds the previous lock, except when it stays clear of the deletion;
    then those who hold the lock that is being rotated out are waited for.
   */
  ghost predicate LockInv(s: State) {
    match s.writer
    case Deleting(k) =>
      && s.prev == OtherLock(s.cur)
      && (forall id | IsReading(s, id) && s.readers[id].lock == s.prev :: KeepsClear(s, id))
    case SwappingCur(v) =>
      && s.prev == OtherLock(s.cur)
      && (forall id, a | IsReading(s, id) && s.readers[id].lock == s.prev && a in v && a in s.dead :: Past(s, id, a))
    case SwappingPrev(v, lock) =>
      && s.cur == s.prev == OtherLock(lock)
      && (forall id, a | IsReading(s, id) && s.readers[id].lock != lock && a in v && a in s.dead :: Past(s, id, a))
    case Waiting(v, lock) =>
      && s.prev == lock && s.cur == OtherLock(lock)
      && (forall id, a | IsReading(s, id) && s.readers[id].lock != lock && a in v && a in s.dead :: Past(s, id, a))
    case _ =>
      && s.prev == OtherLock(s.cur)
      && (forall id | IsReading(s, id) :: s.readers[id].lock != s.prev)
      && (s.writer.Waited? ==> forall a | a in s.writer.victims :: Graced(s, a))
  }

  /** In `n` pointer loads, following the key's bits, one gets from `p` to the leaf at `x`. */
  ghost predicate Leads(m: Mem, p: Ptr, k: Key, x: Addr, n: nat)
    decreases n
  {
    if n == 0 then p == Ext(x)
    else p.Int? && Readable(m, p) && Leads(m, NextPtr(m, p, k), k, x, n - 1)
  }

  ghost predicate LeadsHome(m: Mem, p: Ptr, k: Key) {
    exists x, n :: Leads(m, p, k, x, n) && x in m && m[x].Str? && m[x].key == k
  }

  ghost predicate PresentThroughout(s: State, r: Reader)
    requires r.Reading?
  {
    forall n | r.begin <= n < |s.history| :: r.key in s.history[n]
  }

  /** A reader of a key present during its whole read is on its way to a leaf with that key. */
  ghost predicate PathInv(s: State) {
    forall id, p | StandsAt(s, id, p) && PresentThroughout(s, s.readers[id]) ::
      LeadsHome(s.heap.mem, p, s.readers[id].key)
  }

  /** What holds as long as nothing is freed that a reader can get to. */
  ghost predicate CoreInv(s: State) {
    && MemInv(s) && HistoryInv(s) && EdgeInv(s) && PositionInv(s) && BeginInv(s) && PathInv(s)
    && PendingInv(s)
  }

  ghost predicate SysInv(s: State) {
    CoreInv(s) && LockInv(s)
  }

  // ------------------------------------------------------------------ reader steps

  ghost predicate SameMemory(s: State, s': State) {
    s'.heap == s.heap && s'.trie == s.trie && s'.history == s.history && s'.birth == s.birth && s'.dead == s.dead
  }

  /** Unlinked cells a reader has passed stay behind it. */
  ghost predicate Onward(s: State, s': State) {
    forall id, a | IsReading(s', id) && a in s.dead && a in s'.dead && (IsReading(s, id) ==> Past(s, id, a)) ::
      Past(s', id, a)
  }

  lemma SameMemoryKeeps(s: State, s': State)
    requires MemInv(s) && HistoryInv(s) && EdgeInv(s) && SameMemory(s, s') && Onward(s, s')
    ensures MemInv(s') && HistoryInv(s') && EdgeInv(s')
    ensures forall a | Graced(s, a) :: Graced(s', a)
  {
    hide Bit, Position, LeadsHome, CritbitTrie.Valid, Represents;
    forall a | a in s'.heap.mem && s'.heap.mem[a].Str? ensures LeafHistory(s', a) { assert LeafHistory(s, a); }
    forall a, dir | a in s'.dead && a in s'.heap.mem && s'.heap.mem[a].Inner? && !Graced(s', a)
      ensures EdgeOk(s', a, ChildPtr(s'.heap.mem[a], dir))
    {
      assert EdgeOk(s, a, ChildPtr(s.heap.mem[a], dir));
    }
  }

  /** In memory that holds a trie, the links of its nodes lead to its nodes and leaves. */
  lemma {:induction false} LiveEdge(m: Mem, t: Trie, a: Addr, dir: bool)
    requires Stored(m, t) && Inv(t) && a in Addrs(t) && a in m && m[a].Inner?
    ensures Readable(m, ChildPtr(m[a], dir)) && ChildPtr(m[a], dir).a in Addrs(t)
    ensures Deeper(m, a, ChildPtr(m[a], dir))
  {
    hide Bit, Position, AllBits, AllAgree;
    if t.a != a {
      if a in Addrs(t.left) { LiveEdge(m, t.left, a, dir); } else { LiveEdge(m, t.right, a, dir); }
    }
  }

  /** From the root of a stored trie a key's bits lead to the nearest leaf. */
  lemma {:induction false} StoredLeads(m: Mem, t: Trie, k: Key) returns (n: nat)
    requires Stored(m, t)
    ensures Leads(m, PtrOf(t), k, Nearest(t, k).a, n)
    ensures Nearest(t, k).a in m && m[Nearest(t, k).a] == CellOf(Nearest(t, k))
  {
    n := 0;
    if t.Node? {
      n := StoredLeads(m, Child(t, Bit(k, Pos(t.crit))), k);
      n := n + 1;
    }
  }

  lemma LeadsHomeFromHead(s: State, k: Key)
    requires MemInv(s) && k in Map(s.trie)
    ensures LeadsHome(s.heap.mem, s.heap.head, k)
  {
    var t := s.trie.value;
    LookupIsMapLookup(t, k);
    var n := StoredLeads(s.heap.mem, t, k);
    assert Leads(s.heap.mem, s.heap.head, k, Nearest(t, k).a, n);
  }

  lemma ChooseKeeps(s: State, id: nat, key: Key)
    requires CoreInv(s) && Enabled(s, Choose(id, key))
    ensures CoreInv(Do(s, Choose(id, key))) && (LockInv(s) ==> LockInv(Do(s, Choose(id, key))))
  {
    hide Bit, Position, MemInv, HistoryInv, EdgeInv, LeadsHome, Readable, PastAt;
    var s' := Do(s, Choose(id, key));
    assert forall i :: IsReading(s', i) <==> IsReading(s, i);
    assert forall i | IsReading(s', i) :: s'.readers[i] == s.readers[i];
    assert forall i, p :: StandsAt(s', i, p) <==> StandsAt(s, i, p);
    SameMemoryKeeps(s, s');
  }

  lemma AcquireKeeps(s: State, id: nat)
    requires CoreInv(s) && Enabled(s, Acquire(id))
    ensures CoreInv(Do(s, Acquire(id)))
    ensures LockInv(s) && SafeAcquire(s, Acquire(id)) ==> LockInv(Do(s, Acquire(id)))
  {
    hide Bit, Position, MemInv, EdgeInv, LeafHistory, LeadsHome, Readable, PastAt, Spared, OnPath;
    var s' := Do(s, Acquire(id));
    assert forall i | i != id :: IsReading(s', i) <==> IsReading(s, i);
    assert forall i | IsReading(s', i) && i != id :: s'.readers[i] == s.readers[i];
    assert forall i, p :: StandsAt(s', i, p) <==> StandsAt(s, i, p);
    SameMemoryKeeps(s, s');
  }

  /** A reader that ends, or is left out of account, takes nothing with it. */
  lemma LeaveKeeps(s: State, id: nat)
    requires CoreInv(s) && IsReading(s, id)
    ensures CoreInv(s.(readers := s.readers - {id}))
    ensures LockInv(s) ==> LockInv(s.(readers := s.readers - {id}))
  {
    hide Bit, Position, MemInv, HistoryInv, EdgeInv, LeadsHome, Readable, PastAt, Spared;
    var s' := s.(readers := s.readers - {id});
    assert forall i | IsReading(s', i) :: IsReading(s, i) && s'.readers[i] == s.readers[i];
    assert forall i, p | StandsAt(s', i, p) :: StandsAt(s, i, p);
    SameMemoryKeeps(s, s');
  }

  /** A cell that is in memory and that some reader may still get to. */
  ghost predicate Followed(s: State, p: Ptr) {
    Readable(s.heap.mem, p) && (p.a in s.dead ==> !Graced(s, p.a))
  }

  lemma StandingIsFollowed(s: State, id: nat, p: Ptr)
    requires PositionInv(s) && StandsAt(s, id, p)
    ensures Followed(s, p)
  {
    assert p.a in s.dead ==> !Past(s, id, p.a);
  }

  lemma NextIsFollowed(s: State, p: Ptr, k: Key)
    requires MemInv(s) && EdgeInv(s) && Followed(s, p) && p.Int?
    ensures var q := NextPtr(s.heap.mem, p, k);
            && Followed(s, q) && Deeper(s.heap.mem, p.a, q)
            && (q.a in s.dead ==> p.a in s.dead && s.dead[q.a] >= s.dead[p.a])
  {
    hide Bit, Position, AllBits, AllAgree;
    var m := s.heap.mem;
    var dir := Bit(k, Pos(m[p.a].crit));
    if p.a in s.dead {
      assert EdgeOk(s, p.a, ChildPtr(m[p.a], dir));
    } else {
      LiveEdge(m, s.trie.value, p.a, dir);
    }
  }

  /** The pointer a reader loads next is in memory, further down, and not older than its read. */
  lemma NextIsSafe(s: State, id: nat)
    requires CoreInv(s) && Enabled(s, LoadChild(id))
    ensures var r := s.readers[id];
            var p := NextPtr(s.heap.mem, r.pos.value, r.key);
            && Readable(s.heap.mem, p) && Deeper(s.heap.mem, r.pos.value.a, p)
            && (p.a in s.dead ==> s.dead[p.a] > r.begin)
            && forall a | a in s.dead && Past(s, id, a) :: PastAt(s.dead, p, a)
  {
    hide Bit, Position, PathInv, HistoryInv, PendingInv, EdgeInv, MemInv, Deeper, Readable;
    var r := s.readers[id];
    assert StandsAt(s, id, r.pos.value);
    StandingIsFollowed(s, id, r.pos.value);
    NextIsFollowed(s, r.pos.value, r.key);
  }

  lemma MoveKeeps(s: State, id: nat, p: Ptr)
    requires CoreInv(s) && IsReading(s, id)
    requires Readable(s.heap.mem, p) && (p.a in s.dead ==> s.dead[p.a] > s.readers[id].begin)
    requires forall a | a in s.dead && Past(s, id, a) :: PastAt(s.dead, p, a)
    requires PresentThroughout(s, s.readers[id]) ==> LeadsHome(s.heap.mem, p, s.readers[id].key)
    ensures CoreInv(MoveReader(s, id, p))
    ensures LockInv(s) && (OnItsPath(s.trie, s.readers[id]) ==> OnItsPath(s.trie, s.readers[id].(pos := Some(p))))
            ==> LockInv(MoveReader(s, id, p))
  {
    hide Bit, Position, MemInv, EdgeInv, LeafHistory, LeadsHome, Readable, PastAt, LockInv;
    var s' := MoveReader(s, id, p);
    assert forall i :: IsReading(s', i) <==> IsReading(s, i);
    assert forall i | IsReading(s', i) :: s'.readers[i].begin == s.readers[i].begin
                                          && s'.readers[i].key == s.readers[i].key;
    assert forall i, q | i != id :: StandsAt(s', i, q) <==> StandsAt(s, i, q);
    assert forall i | IsReading(s', i) :: PresentThroughout(s', s'.readers[i]) <==> PresentThroughout(s, s.readers[i]);
    assert Onward(s, s');
    SameMemoryKeeps(s, s');
    MoveKeepsLocks(s, id, p);
  }

  lemma MoveKeepsLocks(s: State, id: nat, p: Ptr)
    requires IsReading(s, id) && forall a | a in s.dead && Past(s, id, a) :: PastAt(s.dead, p, a)
    ensures LockInv(s) && (OnItsPath(s.trie, s.readers[id]) ==> OnItsPath(s.trie, s.readers[id].(pos := Some(p))))
            ==> LockInv(MoveReader(s, id, p))
  {
    hide PastAt, Spared, OnPath;
    var s' := MoveReader(s, id, p);
    assert forall i :: IsReading(s', i) <==> IsReading(s, i);
    assert forall i | IsReading(s', i) ::
      s'.readers[i].lock == s.readers[i].lock && s'.readers[i].key == s.readers[i].key;
    assert forall i, a | IsReading(s, i) && a in s.dead && Past(s, i, a) :: Past(s', i, a);
  }

  lemma LoadHeadKeeps(s: State, id: nat)
    requires CoreInv(s) && Enabled(s, LoadHead(id))
    ensures CoreInv(Do(s, LoadHead(id))) && (LockInv(s) ==> LockInv(Do(s, LoadHead(id))))
  {
    var r := s.readers[id];
    if PresentThroughout(s, r) {
      assert r.key in s.history[|s.history| - 1];
      LeadsHomeFromHead(s, r.key);
    }
    MoveKeeps(s, id, s.heap.head);
  }

  /** A reader that has followed its key's bits from the root goes on to do so. */
  lemma {:induction false} NextOnPath(m: Mem, t: Trie, k: Key, p: Ptr)
    requires Stored(m, t) && p.Int? && Readable(m, p) && p.a in OnPath(t, k)
    ensures !NextPtr(m, p, k).Null? && NextPtr(m, p, k).a in OnPath(t, k)
  {
    hide Bit, Position;
    if t.Node? {
      var c := Child(t, Bit(k, Pos(t.crit)));
      assert c.a in OnPath(c, k);
      if p.a != t.a { NextOnPath(m, c, k, p); }
    }
  }

  lemma LoadChildKeeps(s: State, id: nat)
    requires CoreInv(s) && Enabled(s, LoadChild(id))
    ensures CoreInv(Do(s, LoadChild(id))) && (LockInv(s) ==> LockInv(Do(s, LoadChild(id))))
  {
    hide Bit, Position, HistoryInv, EdgeInv, LockInv, PositionInv, PendingInv, OnPath;
    var r, m := s.readers[id], s.heap.mem;
    var p := r.pos.value;
    assert StandsAt(s, id, p);
    NextIsSafe(s, id);
    if PresentThroughout(s, r) {
      var x: Addr, n: nat :| Leads(m, p, r.key, x, n) && x in m && m[x].Str? && m[x].key == r.key;
      assert Leads(m, NextPtr(m, p, r.key), r.key, x, n - 1);
    }
    if s.trie.Some? && p.a in OnPath(s.trie.value, r.key) { NextOnPath(m, s.trie.value, r.key, p); }
    MoveKeeps(s, id, NextPtr(m, p, r.key));
  }

  // ------------------------------------------------------------------ locks

  /** The steps of the mutex holder that touch neither memory nor readers. */
  predicate LockStep(step: Step) {
    step.LockInsert? || step.ReleaseInsert? || step.LockDelete? || step.SwapCur? || step.SwapPrev?
    || step.Wait? || step.ReleaseDelete?
  }

  lemma SameReadersKeep(s: State, s': State)
    requires CoreInv(s) && SameMemory(s, s') && s'.readers == s.readers
    ensures MemInv(s') && HistoryInv(s') && EdgeInv(s') && PositionInv(s') && BeginInv(s') && PathInv(s')
    ensures forall i :: IsReading(s', i) <==> IsReading(s, i)
    ensures forall a :: Graced(s', a) <==> Graced(s, a)
    ensures forall i, a | IsReading(s, i) && a in s.dead :: Past(s', i, a) <==> Past(s, i, a)
  {
    hide Bit, Position, LeadsHome, Represents, CritbitTrie.Valid, LeafHistory, PastAt, EdgeInv, Readable;
    assert forall i, p :: StandsAt(s', i, p) <==> StandsAt(s, i, p);
    assert forall i :: IsReading(s', i) <==> IsReading(s, i);
    assert forall i, a | IsReading(s, i) && a in s.dead :: Past(s', i, a) <==> Past(s, i, a);
    SameMemoryKeeps(s, s');
    assert forall a :: Graced(s', a) <==> Graced(s, a);
    assert forall i | IsReading(s, i) :: PresentThroughout(s', s.readers[i]) <==> PresentThroughout(s, s.readers[i]);
  }

  /** The mutex may be released when no reader can get to the unlinked cells. */
  ghost predicate MayRelease(s: State, step: Step) {
    step.ReleaseDelete? ==> forall a | a in Victims(s.writer) :: Graced(s, a)
  }

  lemma LockStepKeeps(s: State, step: Step)
    requires CoreInv(s) && LockStep(step) && Enabled(s, step) && MayRelease(s, step)
    ensures CoreInv(Do(s, step)) && (LockInv(s) ==> LockInv(Do(s, step)))
  {
    hide MemInv, HistoryInv, EdgeInv, PositionInv, PathInv, BeginInv, PastAt, Spared, Past, LockInv;
    var s' := Do(s, step);
    SameReadersKeep(s, s');
    LockStepKeepsLocks(s, step);
  }

  lemma LockStepKeepsLocks(s: State, step: Step)
    requires PendingInv(s) && LockStep(step) && Enabled(s, step)
    ensures LockInv(s) ==> LockInv(Do(s, step))
  {
    hide PastAt, Spared, Past, IsReading;
    SamePast(s, Do(s, step));
  }

  lemma SamePast(s: State, s': State)
    requires s'.readers == s.readers && s'.dead == s.dead
    ensures forall i :: IsReading(s', i) <==> IsReading(s, i)
    ensures forall i, a | IsReading(s, i) && a in s.dead :: Past(s', i, a) <==> Past(s, i, a)
  {
    hide PastAt;
  }

  // ------------------------------------------------------------------ the publishing write

  /** Every cell of `m` is still there in `m'`, with at most the pointer in `w` replaced by `p`. */
  ghost predicate OneWrite(m: Mem, m': Mem, w: Slot, p: Ptr) {
    forall b | b in m :: b in m' &&
      m'[b] == if w.ChildOf? && w.a == b && m[b].Inner? then WithChild(m[b], w.dir, p) else m[b]
  }

  lemma OneWriteReadable(m: Mem, m': Mem, w: Slot, p: Ptr, q: Ptr)
    requires OneWrite(m, m', w, p) && Readable(m, q)
    ensures Readable(m', q)
  {
  }

  lemma {:induction false} LeadsIsNearest(m: Mem, t: Trie, k: Key, x: Addr, n: nat)
    requires Stored(m, t) && Leads(m, PtrOf(t), k, x, n)
    ensures x == Nearest(t, k).a && x in m && m[x] == CellOf(Nearest(t, k))
    decreases n
  {
    hide Bit, Position;
    if t.Node? { LeadsIsNearest(m, Child(t, Bit(k, Pos(t.crit))), k, x, n - 1); }
  }

  /** All keys below the insertion point differ from the new key in the new node's bit. */
  lemma {:induction false} PlaceSubBits(t: Trie, c: Crit, k: Key, y: Key)
    requires Inv(t) && y in Keys(PlaceSub(t, c, k))
    requires Agree(Nearest(t, k).key, k, Pos(c)) && Bit(Nearest(t, k).key, Pos(c)) != Bit(k, Pos(c))
    ensures Bit(y, Pos(c)) != Bit(k, Pos(c))
  {
    hide Bit, Position;
    if t.Leaf? {
    } else if Pos(t.crit) > Pos(c) {
      AgreeWithNearest(t, k, Pos(c), y);
    } else {
      PlaceSubBits(Child(t, Bit(k, Pos(t.crit))), c, k, y);
    }
  }

  /** A path to a stored leaf survives the publishing write, one node longer at most once. */
  lemma {:induction false} LeadsAfterPublish(m: Mem, m': Mem, w: Slot, sub: Trie, c: Crit, k': Key, y: Ptr, a: Addr,
                                             p: Ptr, k: Key, x: Addr, n: nat) returns (n': nat)
    requires OneWrite(m, m', w, Int(a)) && Stored(m, sub)
    requires w.ChildOf? && w.a in m && m[w.a].Inner? ==> ChildPtr(m[w.a], w.dir) == PtrOf(sub)
    requires a in m' && m'[a] == NewNode(c, k', y, PtrOf(sub))
    requires forall z | z in Keys(sub) :: Bit(z, Pos(c)) != Bit(k', Pos(c))
    requires Leads(m, p, k, x, n) && x in m && m[x].Str? && m[x].key == k
    ensures Leads(m', p, k, x, n')
    decreases n
  {
    hide Bit, Position;
    if n == 0 { return 0; }
    var q := NextPtr(m, p, k);
    n' := LeadsAfterPublish(m, m', w, sub, c, k', y, a, q, k, x, n - 1);
    OneWriteReadable(m, m', w, Int(a), p);
    var dir := Bit(k, Pos(m[p.a].crit));
    if w == ChildOf(p.a, dir) {
      LeadsIsNearest(m, sub, k, x, n - 1);
      NearestIsStored(sub, k);
      assert NextPtr(m', Int(a), k) == q;
      assert Leads(m', Int(a), k, x, n' + 1);
      assert NextPtr(m', p, k) == Int(a);
      n' := n' + 2;
    } else {
      assert NextPtr(m', p, k) == q;
      n' := n' + 1;
    }
  }

  lemma PublishWrites(h: Heap, t: Option<Trie>, x: Trie, a: Addr)
    requires x.Leaf? && Represents(h, t) && t.Some? && Nearest(t.value, x.key).key != x.key
    requires x.a !in h.mem && a !in h.mem && a != x.a
    ensures var c := CritOf(Nearest(t.value, x.key).key, x.key);
            var w, sub := PlaceSlot(t.value, Head, c, x.key), PlaceSub(t.value, c, x.key);
            var m' := Publish(h, t, x, a).mem;
            && OneWrite(h.mem, m', w, Int(a)) && Stored(h.mem, sub)
            && a in m' && m'[a] == NewNode(c, x.key, PtrOf(x), PtrOf(sub))
            && x.a in m' && m'[x.a] == CellOf(x)
            && (w.ChildOf? ==> w.a in Addrs(t.value) && w.a in h.mem && m'.Keys == h.mem.Keys + {x.a, a})
            && (w.ChildOf? && w.a in h.mem && h.mem[w.a].Inner? ==> ChildPtr(h.mem[w.a], w.dir) == PtrOf(sub))
  {
    hide Bit, Position, Diff;
    var c := CritOf(Nearest(t.value, x.key).key, x.key);
    PlaceSlotWhere(h.mem, t.value, Head, c, x.key);
  }

  lemma PublishKeepsPath(h: Heap, t: Option<Trie>, x: Trie, a: Addr, p: Ptr, k: Key)
    requires x.Leaf? && Represents(h, t) && CritbitTrie.Valid(t)
    requires t.Some? ==> Nearest(t.value, x.key).key != x.key
    requires x.a !in h.mem && a !in h.mem && a != x.a
    requires LeadsHome(h.mem, p, k)
    ensures LeadsHome(Publish(h, t, x, a).mem, p, k)
  {
    hide Bit, Position, Diff, Represents;
    var m' := Publish(h, t, x, a).mem;
    var y: Addr, n: nat :| Leads(h.mem, p, k, y, n) && y in h.mem && h.mem[y].Str? && h.mem[y].key == k;
    if t.None? {
      assert OneWrite(h.mem, m', Head, Null);
      LeadsFrame(h.mem, m', p, k, y, n);
    } else {
      var near := Nearest(t.value, x.key).key;
      var c := CritOf(near, x.key);
      var sub := PlaceSub(t.value, c, x.key);
      PublishWrites(h, t, x, a);
      DiffIsFirst(near, x.key);
      forall z | z in Keys(sub) ensures Bit(z, Pos(c)) != Bit(x.key, Pos(c)) { PlaceSubBits(t.value, c, x.key, z); }
      var w := PlaceSlot(t.value, Head, c, x.key);
      var n' := LeadsAfterPublish(h.mem, m', w, sub, c, x.key, PtrOf(x), a, p, k, y, n);
    }
  }

  lemma {:induction false} LeadsFrame(m: Mem, m': Mem, p: Ptr, k: Key, x: Addr, n: nat)
    requires Leads(m, p, k, x, n)
    requires forall b | b in m :: b in m' && m'[b] == m[b]
    ensures Leads(m', p, k, x, n)
    decreases n
  {
    hide Bit, Position;
    if n > 0 { LeadsFrame(m, m', NextPtr(m, p, k), k, x, n - 1); }
  }

  // ------------------------------------------------------------------ the unlinking write

  /** A path to a leaf with another key survives the unlinking write, one node shorter at most once. */
  lemma {:induction false} LeadsAfterUnlink(m: Mem, m': Mem, w: Slot, q: Trie, k': Key,
                                            p: Ptr, k: Key, x: Addr, n: nat) returns (n': nat)
    requires q.Node? && Stored(m, q)
    requires var dir := Bit(k', Pos(q.crit));
             && Child(q, dir).Leaf? && Child(q, dir).key == k'
             && OneWrite(m, m', w, PtrOf(Child(q, !dir)))
    requires w.ChildOf? && w.a in m && m[w.a].Inner? ==> ChildPtr(m[w.a], w.dir) == PtrOf(q)
    requires Leads(m, p, k, x, n) && x in m && m[x].Str? && m[x].key == k && k != k'
    ensures Leads(m', p, k, x, n')
    decreases n
  {
    hide Bit, Position;
    if n == 0 { return 0; }
    var next := NextPtr(m, p, k);
    var s := PtrOf(Child(q, !Bit(k', Pos(q.crit))));
    OneWriteReadable(m, m', w, s, p);
    if w == ChildOf(p.a, Bit(k, Pos(m[p.a].crit))) {
      assert next == PtrOf(q);
      LeadsIsNearest(m, q, k, x, n - 1);
      assert NextPtr(m, next, k) == s;
      n' := LeadsAfterUnlink(m, m', w, q, k', s, k, x, n - 2);
      assert NextPtr(m', p, k) == s;
    } else {
      n' := LeadsAfterUnlink(m, m', w, q, k', next, k, x, n - 1);
      assert NextPtr(m', p, k) == next;
    }
    n' := n' + 1;
  }

  lemma UnlinkWrites(h: Heap, t: Trie, k: Key)
    requires Represents(h, Some(t)) && t.Node?
    ensures var w, q := RemoveSlot(t, Head, k), Parent(t, k);
            && OneWrite(h.mem, Unlink(h, Some(t), k).mem, w, PtrOf(Sibling(t, k)))
            && Stored(h.mem, q) && Nearest(t, k) == Child(q, Bit(k, Pos(q.crit)))
            && (w.ChildOf? ==> w.a in Addrs(t) && w.a in h.mem && h.mem[w.a].Inner?
                               && ChildPtr(h.mem[w.a], w.dir) == PtrOf(q) && w.a != q.a)
  {
    hide Bit, Position;
    RemoveSlotWhere(h.mem, t, Head, k);
    ParentUntouched(h.mem, t, k);
  }

  lemma UnlinkKeepsPath(h: Heap, t: Trie, k': Key, p: Ptr, k: Key)
    requires Represents(h, Some(t)) && Nearest(t, k').key == k' && k != k'
    requires LeadsHome(h.mem, p, k)
    ensures LeadsHome(Unlink(h, Some(t), k').mem, p, k)
  {
    hide Bit, Position;
    var m' := Unlink(h, Some(t), k').mem;
    var y: Addr, n: nat :| Leads(h.mem, p, k, y, n) && y in h.mem && h.mem[y].Str? && h.mem[y].key == k;
    if t.Leaf? {
      LeadsFrame(h.mem, m', p, k, y, n);
    } else {
      UnlinkWrites(h, t, k');
      var n' := LeadsAfterUnlink(h.mem, m', RemoveSlot(t, Head, k'), Parent(t, k'), k', p, k, y, n);
    }
  }

  // ------------------------------------------------------------------ writer steps

  /** A write that touches only the reachable part: other cells keep their contents, all keep their kind. */
  ghost predicate LiveWrite(m: Mem, m': Mem, live: set<Addr>) {
    && (forall b | b in m :: b in m' && (m'[b].Str? <==> m[b].Str?))
    && (forall b | b in m && (b !in live || m[b].Str?) :: m'[b] == m[b])
    && (forall b | b in m && m[b].Inner? :: m'[b].crit == m[b].crit)
  }

  lemma PublishIsLiveWrite(h: Heap, t: Option<Trie>, x: Trie, a: Addr)
    requires x.Leaf? && Represents(h, t)
    requires t.Some? ==> Nearest(t.value, x.key).key != x.key
    requires x.a !in h.mem && a !in h.mem && a != x.a
    ensures LiveWrite(h.mem, Publish(h, t, x, a).mem, AddrsOf(t))
    ensures x.a in Publish(h, t, x, a).mem && Publish(h, t, x, a).mem[x.a] == CellOf(x)
    ensures a in Publish(h, t, x, a).mem ==> Publish(h, t, x, a).mem[a].Inner?
  {
    hide Bit, Position, Diff;
    if t.Some? { PublishWrites(h, t, x, a); }
  }

  lemma UnlinkIsLiveWrite(h: Heap, t: Trie, k: Key)
    requires Represents(h, Some(t))
    ensures LiveWrite(h.mem, Unlink(h, Some(t), k).mem, Addrs(t))
  {
    hide Bit, Position;
    if t.Node? { UnlinkWrites(h, t, k); }
  }

  /** A reachable leaf's pair is in the map. */
  lemma {:induction false} LiveLeafInMap(m: Mem, t: Trie, a: Addr)
    requires Stored(m, t) && Inv(t) && a in Addrs(t) && a in m && m[a].Str?
    ensures m[a].key in Contents(t) && Contents(t)[m[a].key] == m[a].value
  {
    hide Bit, Position;
    if t.Node? {
      if a in Addrs(t.left) {
        LiveLeafInMap(m, t.left, a);
        assert Bit(m[a].key, Pos(t.crit)) == false;
        assert m[a].key !in Keys(t.right);
      } else {
        LiveLeafInMap(m, t.right, a);
      }
    }
  }

  /** What a writer's step does to memory, the trie and the history, as far as readers can tell. */
  ghost predicate WriterStep(s: State, s': State) {
    && MemInv(s) && MemInv(s')
    && s'.history == s.history + [Map(s'.trie)]
    && s'.readers == s.readers
    && LiveWrite(s.heap.mem, s'.heap.mem, AddrsOf(s.trie))
    && (forall a | a in s.dead :: a in s'.dead && s'.dead[a] == s.dead[a])
    && (forall a | a in s'.dead && a !in s.dead :: s'.dead[a] == |s.history| && a in s.heap.mem)
    && (forall a | a in s.heap.mem ::
      (a in s'.birth && a in s.birth && s'.birth[a] == s.birth[a]) || (a !in s.birth && a !in s'.birth))
    && (forall a | a in s'.heap.mem && s'.heap.mem[a].Str? && a !in s.heap.mem ::
          a in s'.birth && s'.birth[a] == |s.history| && a !in s'.dead)
  }

  lemma WriterKeepsHistory(s: State, s': State)
    requires WriterStep(s, s') && HistoryInv(s)
    ensures MemInv(s') && HistoryInv(s')
  {
    forall a | a in s'.heap.mem && s'.heap.mem[a].Str? ensures LeafHistory(s', a) {
      var last := |s.history|;
      if a in s.heap.mem {
        assert LeafHistory(s, a);
        assert s'.heap.mem[a] == s.heap.mem[a];
      }
      if a !in s'.dead {
        LiveLeafInMap(s'.heap.mem, s'.trie.value, a);
      }
    }
  }

  lemma WriterKeepsReaders(s: State, s': State)
    requires WriterStep(s, s') && HistoryInv(s) && PositionInv(s) && BeginInv(s)
    ensures PositionInv(s') && BeginInv(s')
    ensures forall a | a in s.dead :: Graced(s, a) <==> Graced(s', a)
    ensures forall i, a | IsReading(s, i) && a in s.dead :: Past(s', i, a) <==> Past(s, i, a)
  {
    hide MemInv, LeafHistory, CritbitTrie.Valid, Represents;
    assert forall i :: IsReading(s', i) <==> IsReading(s, i);
    forall i, p | StandsAt(s', i, p)
      ensures Readable(s'.heap.mem, p) && (p.a in s'.dead ==> s'.dead[p.a] > s'.readers[i].begin)
    {
      assert StandsAt(s, i, p);
    }
  }

  lemma EdgeAfterWrite(s: State, s': State, a: Addr, p: Ptr)
    requires LiveWrite(s.heap.mem, s'.heap.mem, AddrsOf(s.trie)) && a in s.heap.mem && a in s.dead && a in s'.dead
    requires forall b | b in s.dead :: b in s'.dead && s'.dead[b] == s.dead[b]
    requires forall b | b in s'.dead && b !in s.dead :: s'.dead[b] >= s'.dead[a]
    requires EdgeOk(s, a, p)
    ensures EdgeOk(s', a, p)
  {
    hide Addrs;
  }

  lemma WriterKeepsEdges(s: State, s': State)
    requires WriterStep(s, s') && HistoryInv(s) && EdgeInv(s)
    requires forall a | a in s.dead :: Graced(s, a) <==> Graced(s', a)
    requires forall a, dir | a in s'.dead && a !in s.dead && a in s'.heap.mem && s'.heap.mem[a].Inner? ::
               EdgeOk(s', a, ChildPtr(s'.heap.mem[a], dir))
    ensures EdgeInv(s')
  {
    hide CritbitTrie.Valid, Represents, LeafHistory, EdgeOk, Graced;
    forall a, dir | a in s'.dead && a in s'.heap.mem && s'.heap.mem[a].Inner? && !Graced(s', a)
      ensures EdgeOk(s', a, ChildPtr(s'.heap.mem[a], dir))
    {
      if a in s.dead {
        assert a in s.heap.mem && s'.heap.mem[a] == s.heap.mem[a];
        assert EdgeOk(s, a, ChildPtr(s.heap.mem[a], dir));
        EdgeAfterWrite(s, s', a, ChildPtr(s.heap.mem[a], dir));
      }
    }
  }

  lemma PublishIsWriterStep(s: State, b: Addr, a: Addr)
    requires MemInv(s) && HistoryInv(s) && Enabled(s, PublishStep(b, a))
    requires s.trie.Some? ==> Nearest(s.trie.value, s.writer.key).key != s.writer.key
    ensures WriterStep(s, DoPublish(s, b, a))
  {
    hide Bit, Position, Diff, LeafHistory, Addrs, CritbitTrie.Valid, Represents, Publish, Insert, LiveWrite,
      CritbitTrie.Map;
    var x := Leaf(b, s.writer.key, s.writer.value);
    PublishIsInsert(s.heap, s.trie, x, a);
    InsertRefinesMap(s.trie, x, a);
    PublishIsLiveWrite(s.heap, s.trie, x, a);
  }

  lemma PublishKeepsPaths(s: State, b: Addr, a: Addr)
    requires MemInv(s) && PathInv(s) && Enabled(s, PublishStep(b, a))
    requires s.trie.Some? ==> Nearest(s.trie.value, s.writer.key).key != s.writer.key
    ensures PathInv(DoPublish(s, b, a))
  {
    hide Bit, Position, Diff, LeadsHome, CritbitTrie.Valid, Represents;
    var s' := DoPublish(s, b, a);
    forall i, p | StandsAt(s', i, p) && PresentThroughout(s', s'.readers[i])
      ensures LeadsHome(s'.heap.mem, p, s'.readers[i].key)
    {
      assert StandsAt(s, i, p);
      PresentBefore(s, s', s.readers[i]);
      PublishKeepsPath(s.heap, s.trie, Leaf(b, s.writer.key, s.writer.value), a, p, s.readers[i].key);
    }
  }

  lemma PublishKeepsLocks(s: State, b: Addr, a: Addr)
    requires PendingInv(s) && Enabled(s, PublishStep(b, a))
    requires forall c | c in s.dead :: Graced(s, c) <==> Graced(DoPublish(s, b, a), c)
    ensures PendingInv(DoPublish(s, b, a)) && (LockInv(s) ==> LockInv(DoPublish(s, b, a)))
  {
    hide Bit, Position, Represents, Publish, Insert, Nearest, Graced, Past;
    var s' := DoPublish(s, b, a);
    assert forall i :: IsReading(s', i) <==> IsReading(s, i);
  }

  lemma PublishStepKeeps(s: State, b: Addr, a: Addr)
    requires CoreInv(s) && Enabled(s, PublishStep(b, a))
    ensures CoreInv(Do(s, PublishStep(b, a))) && (LockInv(s) ==> LockInv(Do(s, PublishStep(b, a))))
  {
    hide Bit, Position, Publish, Insert, Represents, Addrs, CritbitTrie.Valid, CritbitTrie.Map, Nearest,
      EdgeInv, PositionInv, PathInv, HistoryInv, BeginInv, MemInv, WriterStep, Graced, Past;
    var s' := DoPublish(s, b, a);
    if s.trie.Some? && Nearest(s.trie.value, s.writer.key).key == s.writer.key {
      SameReadersKeep(s, s');
    } else {
      PublishIsWriterStep(s, b, a);
      PublishKeepsPaths(s, b, a);
      WriterKeepsHistory(s, s');
      WriterKeepsReaders(s, s');
      PublishKeepsLocks(s, b, a);
      WriterKeepsEdges(s, s');
    }
  }

  lemma PresentBefore(s: State, s': State, r: Reader)
    requires r.Reading? && |s'.history| == |s.history| + 1 && s'.history[..|s.history|] == s.history
    requires PresentThroughout(s', r)
    ensures PresentThroughout(s, r)
    ensures r.begin <= |s.history| ==> r.key in s'.history[|s.history|]
  {
  }

  lemma UnlinkIsWriterStep(s: State)
    requires MemInv(s) && HistoryInv(s) && Enabled(s, UnlinkStep)
    requires s.trie.Some? && Nearest(s.trie.value, s.writer.key).key == s.writer.key
    ensures WriterStep(s, DoUnlink(s))
  {
    hide Bit, Position, Diff, LeafHistory, Addrs, CritbitTrie.Valid, Represents, Unlink, Delete, LiveWrite,
      CritbitTrie.Map;
    UnlinkIsDelete(s.heap, s.trie, s.writer.key);
    DeleteRefinesMap(s.trie, s.writer.key);
    UnlinkIsLiveWrite(s.heap, s.trie.value, s.writer.key);
  }

  lemma UnlinkKeepsPaths(s: State)
    requires MemInv(s) && PathInv(s) && BeginInv(s) && Enabled(s, UnlinkStep)
    requires s.trie.Some? && Nearest(s.trie.value, s.writer.key).key == s.writer.key
    ensures PathInv(DoUnlink(s))
  {
    hide Bit, Position, Diff, LeadsHome;
    var s' := DoUnlink(s);
    DeleteRefinesMap(s.trie, s.writer.key);
    hide CritbitTrie.Valid, Represents;
    forall i, p | StandsAt(s', i, p) && PresentThroughout(s', s'.readers[i])
      ensures LeadsHome(s'.heap.mem, p, s'.readers[i].key)
    {
      assert StandsAt(s, i, p) && IsReading(s, i);
      PresentBefore(s, s', s.readers[i]);
      UnlinkKeepsPath(s.heap, s.trie.value, s.writer.key, p, s.readers[i].key);
    }
  }

  /** A reader on its path, which the deletion spares, is past what has been unlinked. */
  lemma SparedIsPast(s: State, id: nat, a: Addr)
    requires MemInv(s) && HistoryInv(s) && Enabled(s, UnlinkStep)
    requires s.trie.Some? && Nearest(s.trie.value, s.writer.key).key == s.writer.key
    requires IsReading(s, id) && KeepsClear(s, id) && a in DoUnlink(s).dead
    ensures Past(DoUnlink(s), id, a)
  {
    hide Bit, Position, Unlink, Delete, Represents;
    OnPathIsStored(s.trie.value, s.readers[id].key);
    hide OnPath, Addrs, Unlinked, Nearest;
  }

  lemma {:induction false} OnPathIsStored(t: Trie, k: Key)
    ensures OnPath(t, k) <= Addrs(t)
  {
    hide Bit, Position;
    if t.Node? { OnPathIsStored(Child(t, Bit(k, Pos(t.crit))), k); }
  }

  lemma UnlinkKeepsLocks(s: State)
    requires CoreInv(s) && Enabled(s, UnlinkStep)
    requires s.trie.Some? && Nearest(s.trie.value, s.writer.key).key == s.writer.key
    requires Unlinked(s.trie.value, s.writer.key) <= AddrsOf(s.trie)
    requires forall a | a in s.dead :: Graced(s, a) <==> Graced(DoUnlink(s), a)
    ensures PendingInv(DoUnlink(s)) && (LockInv(s) ==> LockInv(DoUnlink(s)))
  {
    hide Bit, Position, EdgeInv, PositionInv, PathInv, HistoryInv, Represents, Addrs, CritbitTrie.Valid, Unlink, Delete,
      Unlinked, Graced, Past, KeepsClear, Nearest;
    var s' := DoUnlink(s);
    assert forall i :: IsReading(s', i) <==> IsReading(s, i);
    forall i, a | IsReading(s, i) && KeepsClear(s, i) && a in s'.dead ensures Past(s', i, a) { SparedIsPast(s, i, a); }
  }

  lemma UnlinkStepKeeps(s: State)
    requires CoreInv(s) && Enabled(s, UnlinkStep)
    ensures CoreInv(Do(s, UnlinkStep)) && (LockInv(s) ==> LockInv(Do(s, UnlinkStep)))
  {
    hide Bit, Position, Unlink, Delete, Unlinked, Represents, Addrs, CritbitTrie.Valid, CritbitTrie.Map, Nearest,
      EdgeInv, PositionInv, PathInv, HistoryInv, BeginInv, MemInv, WriterStep, Graced, Past, KeepsClear, EdgeOk;
    var s' := DoUnlink(s);
    if s.trie.Some? && Nearest(s.trie.value, s.writer.key).key == s.writer.key {
      UnlinkIsWriterStep(s);
      UnlinkKeepsPaths(s);
      UnlinkedAreStored(s);
      WriterKeepsHistory(s, s');
      WriterKeepsReaders(s, s');
      UnlinkKeepsLocks(s);
      UnlinkedEdges(s, s');
      WriterKeepsEdges(s, s');
    } else {
      SameReadersKeep(s, s');
    }
  }

  lemma UnlinkedAreStored(s: State)
    requires MemInv(s) && s.writer.Deleting? && s.trie.Some? && Nearest(s.trie.value, s.writer.key).key == s.writer.key
    ensures Unlinked(s.trie.value, s.writer.key) <= AddrsOf(s.trie)
  {
    hide Bit, Position, Unlinked, Nearest, Unlink, Delete;
    UnlinkIsDelete(s.heap, s.trie, s.writer.key);
  }

  /** The unlinking write leaves the unlinked cells as they are. */
  lemma UnlinkedUntouched(h: Heap, t: Trie, k: Key, a: Addr)
    requires Represents(h, Some(t)) && a in Unlinked(t, k) && a in h.mem
    ensures a in Unlink(h, Some(t), k).mem && Unlink(h, Some(t), k).mem[a] == h.mem[a]
  {
    hide Bit, Position;
    if t.Node? { UnlinkWrites(h, t, k); }
  }

  /** The links of a freshly unlinked node lead to its unlinked leaf and to its reachable sibling. */
  lemma UnlinkedEdges(s: State, s': State)
    requires MemInv(s) && Enabled(s, UnlinkStep) && s' == DoUnlink(s)
    requires s.trie.Some? && Nearest(s.trie.value, s.writer.key).key == s.writer.key
    ensures forall a, dir | a in s'.dead && a !in s.dead && a in s'.heap.mem && s'.heap.mem[a].Inner? ::
              EdgeOk(s', a, ChildPtr(s'.heap.mem[a], dir))
  {
    hide Bit, Position, Delete, AllBits, AllAgree, Unlink, Unlinked, Nearest, Addrs, Distinct;
    var t, k := s.trie.value, s.writer.key;
    UnlinkIsDelete(s.heap, s.trie, k);
    UnlinkIsLiveWrite(s.heap, t, k);
    forall a, dir | a in s'.dead && a !in s.dead && a in s'.heap.mem && s'.heap.mem[a].Inner?
      ensures EdgeOk(s', a, ChildPtr(s'.heap.mem[a], dir))
    {
      UnlinkedUntouched(s.heap, t, k, a);
      LiveEdge(s.heap.mem, t, a, dir);
      assert Readable(s'.heap.mem, ChildPtr(s.heap.mem[a], dir));
    }
  }

  // ------------------------------------------------------------------ freeing

  /** A path a reader may still take does not pass a cell that may be freed. */
  lemma {:induction false} LeadsAfterFree(s: State, a: Addr, p: Ptr, k: Key, x: Addr, n: nat)
    requires MemInv(s) && EdgeInv(s) && Graced(s, a) && Followed(s, p)
    requires Leads(s.heap.mem, p, k, x, n)
    ensures Leads(s.heap.mem - {a}, p, k, x, n) && x != a
    decreases n
  {
    assert p.a != a;
    hide Bit, Position, MemInv, EdgeInv, Graced;
    if n > 0 {
      var q := NextPtr(s.heap.mem, p, k);
      assert NextPtr(s.heap.mem - {a}, p, k) == q;
      NextIsFollowed(s, p, k);
      LeadsAfterFree(s, a, q, k, x, n - 1);
    }
  }

  lemma FreeKeepsMemory(s: State, a: Addr)
    requires CoreInv(s) && Enabled(s, FreeCell(a))
    ensures MemInv(Do(s, FreeCell(a))) && HistoryInv(Do(s, FreeCell(a)))
  {
    hide Bit, Position, CritbitTrie.Valid, CritbitTrie.Map, PathInv, EdgeInv, PositionInv, BeginInv, Graced, Addrs,
      Stored, Distinct;
    var s' := Do(s, FreeCell(a));
    var m, m' := s.heap.mem, s'.heap.mem;
    if s.trie.Some? { StoredFrame(m, m', s.trie.value); }
    forall b | b in m' && m'[b].Str? ensures LeafHistory(s', b) { assert LeafHistory(s, b); }
  }

  /** Where no reader stands, freeing changes nothing of what the readers can get to. */
  lemma FreeKeepsPast(s: State, a: Addr)
    requires PositionInv(s) && PendingInv(s) && Enabled(s, FreeCell(a))
    ensures forall i, b | IsReading(s, i) && b in s.dead && b != a :: Past(Do(s, FreeCell(a)), i, b) <==> Past(s, i, b)
    ensures forall i, p | StandsAt(s, i, p) :: p.Null? || p.a != a
    ensures forall b | b != a :: Graced(Do(s, FreeCell(a)), b) <==> Graced(s, b)
  {
    hide Readable;
    var s' := Do(s, FreeCell(a));
    assert forall i :: IsReading(s', i) <==> IsReading(s, i);
    forall i, p | StandsAt(s, i, p) ensures p.Null? || p.a != a { assert Past(s, i, a); }
    forall i, b | IsReading(s, i) && b in s.dead && b != a ensures Past(s', i, b) <==> Past(s, i, b) {
      var pos := s.readers[i].pos;
      if pos.Some? { assert StandsAt(s, i, pos.value); }
    }
  }

  /** What is unlinked before a cell nobody can get to cannot be got to either. */
  lemma GracedEarlier(s: State, b: Addr, a: Addr)
    requires Graced(s, a) && b in s.dead && s.dead[b] <= s.dead[a]
    ensures Graced(s, b)
  {
    forall i | IsReading(s, i) ensures Past(s, i, b) { assert Past(s, i, a); }
  }

  lemma FreeKeepsEdges(s: State, a: Addr)
    requires CoreInv(s) && Enabled(s, FreeCell(a))
    ensures EdgeInv(Do(s, FreeCell(a)))
  {
    hide Bit, Position, CritbitTrie.Valid, PathInv, PositionInv, HistoryInv, Graced;
    var s' := Do(s, FreeCell(a));
    var m, m' := s.heap.mem, s'.heap.mem;
    FreeKeepsPast(s, a);
    forall b, dir | b in s'.dead && b in m' && m'[b].Inner? && !Graced(s', b)
      ensures EdgeOk(s', b, ChildPtr(m'[b], dir))
    {
      assert EdgeOk(s, b, ChildPtr(m[b], dir));
      if ChildPtr(m[b], dir).a == a { GracedEarlier(s, b, a); }
    }
  }

  lemma FreeKeeps(s: State, a: Addr)
    requires CoreInv(s) && Enabled(s, FreeCell(a))
    ensures CoreInv(Do(s, FreeCell(a))) && (LockInv(s) ==> LockInv(Do(s, FreeCell(a))))
  {
    hide MemInv, HistoryInv, EdgeInv, PositionInv, PathInv, Past, Graced, Spared;
    var s' := Do(s, FreeCell(a));
    FreeKeepsMemory(s, a);
    FreeKeepsEdges(s, a);
    FreeKeepsPaths(s, a);
    FreeKeepsPast(s, a);
    assert forall i :: IsReading(s', i) <==> IsReading(s, i);
  }

  lemma FreeKeepsPaths(s: State, a: Addr)
    requires CoreInv(s) && Enabled(s, FreeCell(a))
    ensures PathInv(Do(s, FreeCell(a))) && PositionInv(Do(s, FreeCell(a)))
  {
    hide Bit, Position, MemInv, EdgeInv, HistoryInv, Graced, Leads;
    var s' := Do(s, FreeCell(a));
    var m, m' := s.heap.mem, s'.heap.mem;
    FreeKeepsPast(s, a);
    forall i, p | StandsAt(s', i, p)
      ensures Readable(m', p) && (p.a in s'.dead ==> s'.dead[p.a] > s'.readers[i].begin)
      ensures PresentThroughout(s', s'.readers[i]) ==> LeadsHome(m', p, s'.readers[i].key)
    {
      assert StandsAt(s, i, p) && IsReading(s, i);
      var r := s.readers[i];
      if PresentThroughout(s', r) {
        assert PresentThroughout(s, r);
        var x: Addr, n: nat :| Leads(m, p, r.key, x, n) && x in m && m[x].Str? && m[x].key == r.key;
        StandingIsFollowed(s, i, p);
        LeadsAfterFree(s, a, p, r.key, x, n);
      }
    }
  }

  // ------------------------------------------------------------------ whole runs

  lemma CoreKeeps(s: State, step: Step)
    requires CoreInv(s) && Enabled(s, step) && MayRelease(s, step)
    ensures CoreInv(Do(s, step))
    ensures LockInv(s) && SafeAcquire(s, step) ==> LockInv(Do(s, step))
  {
    hide CoreInv, LockInv, MayRelease, SafeAcquire;
    match step {
      case Choose(id, key) => ChooseKeeps(s, id, key);
      case Acquire(id) => AcquireKeeps(s, id);
      case LoadHead(id) => LoadHeadKeeps(s, id);
      case LoadChild(id) => LoadChildKeeps(s, id);
      case Finish(id) => LeaveKeeps(s, id);
      case PublishStep(x, a) => PublishStepKeeps(s, x, a);
      case UnlinkStep => UnlinkStepKeeps(s);
      case FreeCell(a) => FreeKeeps(s, a);
      case _ => LockStepKeeps(s, step);
    }
  }

  lemma StepKeeps(s: State, step: Step)
    requires SysInv(s) && Enabled(s, step) && SafeAcquire(s, step)
    ensures SysInv(Do(s, step))
  {
    hide CoreInv, SafeAcquire;
    assert MayRelease(s, step);
    CoreKeeps(s, step);
  }

  lemma {:induction false} RunKeeps(s: State, steps: seq<Step>)
    requires SysInv(s) && AllSafe(s, steps)
    ensures Exec(s, steps).Some? && SysInv(Exec(s, steps).value)
    decreases |steps|
  {
    if steps != [] {
      StepKeeps(s, steps[0]);
      RunKeeps(Do(s, steps[0]), steps[1..]);
    }
  }

  /** `s` is reached by a run in which every acquisition of a read lock is safe. */
  ghost predicate Reachable(s: State) {
    exists steps :: Runs(Start, steps, s)
  }

  lemma ReachableInv(s: State)
    requires Reachable(s)
    ensures SysInv(s)
  {
    var steps :| Runs(Start, steps, s);
    RunKeeps(Start, steps);
  }

  /** What a lookup that stands at a leaf reports. */
  function Result(s: State, id: nat): Option<Value>
    requires IsReading(s, id) && s.readers[id].pos.Some? && s.readers[id].pos.value.Ext?
    requires Readable(s.heap.mem, s.readers[id].pos.value)
  {
    var c := s.heap.mem[s.readers[id].pos.value.a];
    if c.key == s.readers[id].key then Some(c.value) else None
  }

  /**
    Lookups are linearizable: what a finishing reader reports is what the map held at some moment
    between its lock acquisition and now. In particular a key present throughout is found, and a key
    absent throughout is not.
   */
  lemma LookupIsLinearizable(s: State, id: nat)
    requires Reachable(s) && Enabled(s, Finish(id))
    ensures Readable(s.heap.mem, s.readers[id].pos.value)
    ensures var r := s.readers[id];
            exists n :: r.begin <= n < |s.history| &&
              Result(s, id) == (if r.key in s.history[n] then Some(s.history[n][r.key]) else None)
    ensures PresentThroughout(s, s.readers[id]) ==> Result(s, id).Some?
  {
    ReachableInv(s);
    hide MemInv, EdgeInv, LockInv, Bit, Position;
    var r, m := s.readers[id], s.heap.mem;
    var p := r.pos.value;
    assert StandsAt(s, id, p);
    assert LeafHistory(s, p.a);
    if PresentThroughout(s, r) {
      var x: Addr, n: nat :| Leads(m, p, r.key, x, n) && x in m && m[x].Str? && m[x].key == r.key;
      assert x == p.a;
    }
    if m[p.a].key == r.key {
      var n := if s.birth[p.a] <= r.begin then r.begin else s.birth[p.a];
      assert r.key in s.history[n] && s.history[n][r.key] == m[p.a].value;
    } else {
      var n :| r.begin <= n < |s.history| && r.key !in s.history[n];
    }
  }

  /**
    Grace period: whatever a reader points to, or loads next, is in memory and not about to be
    freed.
   */
  lemma NoReaderTouchesFreedMemory(s: State, id: nat, p: Ptr)
    requires Reachable(s) && StandsAt(s, id, p)
    ensures Readable(s.heap.mem, p) && p.a !in s.pending
    ensures p.Int? ==> var q := NextPtr(s.heap.mem, p, s.readers[id].key);
                       Readable(s.heap.mem, q) && q.a !in s.pending
  {
    hide MemInv, HistoryInv, EdgeInv, PathInv, BeginInv, LockInv, Readable, Graced, NextPtr;
    ReachableInv(s);
    StandingIsFollowed(s, id, p);
    if p.Int? { NextIsFollowed(s, p, s.readers[id].key); }
  }

  /** No reader gets to a cell that may be freed: it is past it, and stays so. */
  lemma FreedAreOutOfReach(s: State, id: nat, a: Addr)
    requires Reachable(s) && IsReading(s, id)
    requires a in s.pending || (s.writer.Waited? && a in s.writer.victims)
    ensures a in s.dead && Past(s, id, a)
  {
    ReachableInv(s);
    assert Graced(s, a);
  }

  // ------------------------------------------------------------------ locks acquired in time

  /** Every read lock along the steps is acquired in time. */
  ghost predicate AllTimely(s: State, steps: seq<Step>)
    decreases |steps|
  {
    steps == [] ||
      (Enabled(s, steps[0])
       && (steps[0].Acquire? && steps[0].id in s.readers ==> Timely(s, s.readers[steps[0].id].lock))
       && AllTimely(Do(s, steps[0]), steps[1..]))
  }

  /** Every reader began after the unlinking of the cell. */
  ghost predicate Older(s: State, a: Addr) {
    a in s.dead && forall id | IsReading(s, id) :: s.dead[a] <= s.readers[id].begin
  }

  /** Readers on any other lock began after the unlinking of the victims. */
  ghost predicate OlderUnless(s: State, v: set<Addr>, lock: Lock) {
    forall id, a | IsReading(s, id) && s.readers[id].lock != lock && a in v && a in s.dead ::
      s.dead[a] <= s.readers[id].begin
  }

  ghost predicate TimelyInv(s: State) {
    && (forall a | a in s.pending :: Older(s, a))
    && match s.writer
       case SwappingCur(v) => OlderUnless(s, v, s.cur)
       case SwappingPrev(v, lock) => OlderUnless(s, v, lock)
       case Waiting(v, lock) => OlderUnless(s, v, lock)
       case Waited(v) =>
         && (forall id | IsReading(s, id) :: s.readers[id].lock != s.prev)
         && forall a | a in v :: Older(s, a)
       case _ => forall id | IsReading(s, id) :: s.readers[id].lock != s.prev
  }

  /** The readers of `s'` were there before, or have acquired a lock in time after all that is unlinked. */
  ghost predicate TimelyReaders(s: State, s': State) {
    forall id | IsReading(s', id) ::
      || (IsReading(s, id) && s'.readers[id].lock == s.readers[id].lock && s'.readers[id].begin == s.readers[id].begin)
      || (s'.readers[id].begin + 1 >= |s.history| && Timely(s, s'.readers[id].lock))
  }

  lemma TimelyReaderStep(s: State, s': State)
    requires SysInv(s) && TimelyInv(s) && TimelyReaders(s, s')
    requires s'.writer == s.writer && s'.cur == s.cur && s'.prev == s.prev
    requires s'.pending <= s.pending && s'.pending <= s'.dead.Keys
    requires forall a | a in s'.dead :: a in s.dead && s'.dead[a] == s.dead[a]
    requires Victims(s.writer) <= s'.dead.Keys
    ensures TimelyInv(s')
  {
    hide MemInv, EdgeInv, PathInv, PositionInv, Past, Graced, LeafHistory, Represents, KeepsClear;
  }

  lemma TimelyLockStep(s: State, step: Step)
    requires SysInv(s) && TimelyInv(s) && Enabled(s, step) && LockStep(step)
    ensures TimelyInv(Do(s, step))
  {
    hide MemInv, EdgeInv, PathInv, PositionInv, HistoryInv, Past, Graced, KeepsClear;
    var s' := Do(s, step);
    assert forall id :: IsReading(s', id) <==> IsReading(s, id);
    assert forall a | Older(s, a) :: Older(s', a);
  }

  lemma TimelyWrite(s: State, s': State)
    requires SysInv(s) && TimelyInv(s) && s'.readers == s.readers
    requires s'.pending == s.pending && s'.cur == s.cur && s'.prev == s.prev
    requires forall a | a in s.dead :: a in s'.dead && s'.dead[a] == s.dead[a]
    requires (s.writer.Inserting? && s'.writer.Inserted?) || (s.writer.Deleting? && s'.writer.SwappingCur?)
    ensures TimelyInv(s')
  {
    hide MemInv, EdgeInv, PathInv, PositionInv, HistoryInv, Past, Graced, KeepsClear;
    assert forall id :: IsReading(s', id) <==> IsReading(s, id);
    assert forall a | Older(s, a) :: Older(s', a);
  }

  lemma UnlinkKeepsDead(s: State)
    requires MemInv(s) && Enabled(s, UnlinkStep)
    ensures forall a | a in s.dead :: a in DoUnlink(s).dead && DoUnlink(s).dead[a] == s.dead[a]
  {
    hide Bit, Position, Unlink, Delete, Represents, Unlinked, Nearest, Addrs;
    if s.trie.Some? && Nearest(s.trie.value, s.writer.key).key == s.writer.key { UnlinkedAreStored(s); }
  }

  lemma TimelyKeeps(s: State, step: Step)
    requires SysInv(s) && TimelyInv(s) && Enabled(s, step)
    requires step.Acquire? && step.id in s.readers ==> Timely(s, s.readers[step.id].lock)
    ensures TimelyInv(Do(s, step))
  {
    hide Bit, Position, MemInv, EdgeInv, PathInv, PositionInv, LockInv, TimelyInv, Timely, Graced, NextPtr, LeafHistory,
      Represents, Unlink, Publish, Insert, Delete, Nearest, Unlinked;
    var s' := Do(s, step);
    if LockStep(step) {
      TimelyLockStep(s, step);
    } else if step.PublishStep? {
      TimelyWrite(s, s');
    } else if step.UnlinkStep? {
      UnlinkKeepsDead(s);
      TimelyWrite(s, s');
    } else {
      assert forall id | IsReading(s', id) && !step.Acquire? :: IsReading(s, id);
      TimelyReaderStep(s, s');
    }
  }

  lemma {:induction false} TimelyRun(s: State, steps: seq<Step>)
    requires SysInv(s) && TimelyInv(s) && AllTimely(s, steps)
    ensures AllSafe(s, steps) && Exec(s, steps).Some?
    ensures SysInv(Exec(s, steps).value) && TimelyInv(Exec(s, steps).value)
    decreases |steps|
  {
    hide SysInv, TimelyInv;
    if steps != [] {
      StepKeeps(s, steps[0]);
      TimelyKeeps(s, steps[0]);
      TimelyRun(Do(s, steps[0]), steps[1..]);
    }
  }

  /**
    When every lock is acquired in time, nobody holds the previous lock at the start of a deletion,
    and what a deletion frees was unlinked before any active reader began.
   */
  lemma DeletionWaitsForOlderReaders(steps: seq<Step>, s: State, id: nat)
    requires AllTimely(Start, steps) && Exec(Start, steps) == Some(s) && IsReading(s, id)
    ensures s.writer.Free? || s.writer.Deleting? ==> s.readers[id].lock != s.prev
    ensures forall a | a in s.pending || (s.writer.Waited? && a in s.writer.victims) ::
              a in s.dead && s.dead[a] <= s.readers[id].begin
  {
    TimelyRun(Start, steps);
    assert forall a | a in s.pending || (s.writer.Waited? && a in s.writer.victims) :: Older(s, a);
  }
}
