/** `SingleFlight::dedupe` (src/cache.rs) under any interleaving of threads,
    each calling it with the re-check-then-insert closure of
    `Store::raw_window`/`fetch_window` (src/store.rs).

    Every step below is one the code performs atomically: a critical section
    of the map lock, a slot lock or unlock, one locked cache operation, or one
    change of a slot's reference count. */
module SingleFlight {
  import opened Wrappers
  import opened Bytes
  import opened Lru
  import opened ByteCache

  type Thread = nat
  type Key = nat

  /** One `Arc<Mutex<()>>`, made for `key`; `serial` tells allocations apart. */
  datatype Slot = Slot(key: Key, serial: nat)

  /** Where a thread is in its call. */
  datatype Pc =
    | Idle
    | Missed(wanted: Key)                 // the unlocked cache check missed
    | Waiting(slot: Slot)                 // has its clone of the slot
    | Holding(slot: Slot)                 // has the slot lock, about to re-check
    | Working(slot: Slot)                 // the re-check missed: doing the work
    | Returning(slot: Slot)               // closure done, slot lock still held
    | Finished(slot: Slot)                // slot unlocked
    | Cleaning(slot: Slot)                // map lock taken
    | Decided(slot: Slot, remove: bool)   // reference count read
    | Swept(slot: Slot)                   // entry removed or kept
    | Leaving(slot: Slot)                 // map lock released, clone not yet dropped

  datatype Outcome = Stored | Refused | Failed

  datatype Event =
    | Started(thread: Thread, key: Key)
    | Ended(thread: Thread, key: Key, outcome: Outcome)
    | Evicted(key: Key)

  datatype State = State(
    pcs: map<Thread, Pc>,
    inflight: map<Key, Slot>,
    mapLock: Option<Thread>,
    slotLocks: map<Slot, Thread>,
    strong: map<Slot, nat>,
    serials: nat,
    cache: Entries<Key>,
    capacity: nat,
    log: seq<Event>)

  datatype Action =
    | Call(key: Key)
    | Enter
    | Lock
    | Recheck
    | Succeed(value: seq<byte>)
    | Fail
    | Unlock
    | TakeMap
    | ReadCount
    | Sweep
    | ReleaseMap
    | DropSlot

  function Init(threads: set<Thread>, capacity: nat): State {
    State(map t | t in threads :: Idle, map[], None, map[], map[], 0, [], capacity, [])
  }

  predicate Enabled(s: State, t: Thread, a: Action) {
    && t in s.pcs
    && var pc := s.pcs[t];
       match a
       case Call(_) => pc.Idle?
       case Enter => pc.Missed? && s.mapLock.None?
       case Lock => pc.Waiting? && pc.slot !in s.slotLocks
       case Recheck => pc.Holding?
       case Succeed(_) => pc.Working?
       case Fail => pc.Working?
       case Unlock => pc.Returning?
       case TakeMap => pc.Finished? && s.mapLock.None?
       case ReadCount => pc.Cleaning?
       case Sweep => pc.Decided?
       case ReleaseMap => pc.Swept?
       case DropSlot => pc.Leaving?
  }

  function Count(s: State, slot: Slot): nat {
    if slot in s.strong then s.strong[slot] else 0
  }

  /** One reference fewer. */
  function Released(s: State, slot: Slot): map<Slot, nat> {
    s.strong[slot := if Count(s, slot) == 0 then 0 else Count(s, slot) - 1]
  }

  function EvictedKeys(before: Entries<Key>, n: nat): (es: seq<Event>)
    requires n <= |before|
    ensures |es| == n && forall i :: 0 <= i < n ==> es[i] == Evicted(before[i].0)
  {
    seq(n, i requires 0 <= i < n => Evicted(before[i].0))
  }

  /** The events one finished piece of work leaves, oldest first. */
  function StoreEvents(s: State, t: Thread, k: Key, v: seq<byte>): seq<Event> {
    if |v| > s.capacity then [Ended(t, k, Refused)]
    else
      var pushed := Without(s.cache, k) + [(k, v)];
      var kept := Evict(pushed, s.capacity);
      [Ended(t, k, Stored)] + (if |kept| <= |pushed| then EvictedKeys(pushed, |pushed| - |kept|) else [])
  }

  function Do(s: State, t: Thread, a: Action): State
    requires Enabled(s, t, a)
  {
    var pc := s.pcs[t];
    match a
    case Call(k) =>
      s.(cache := Touch(s.cache, k), pcs := s.pcs[t := if Find(s.cache, k).Some? then Idle else Missed(k)])
    case Enter =>
      if pc.wanted in s.inflight then
        var slot := s.inflight[pc.wanted];
        s.(strong := s.strong[slot := Count(s, slot) + 1], pcs := s.pcs[t := Waiting(slot)])
      else
        // A fresh Arc: one reference in the map, one cloned for us.
        var slot := Slot(pc.wanted, s.serials);
        s.(inflight := s.inflight[pc.wanted := slot], strong := s.strong[slot := 2],
           serials := s.serials + 1, pcs := s.pcs[t := Waiting(slot)])
    case Lock =>
      s.(slotLocks := s.slotLocks[pc.slot := t], pcs := s.pcs[t := Holding(pc.slot)])
    case Recheck =>
      if Find(s.cache, pc.slot.key).Some? then
        s.(cache := Touch(s.cache, pc.slot.key), pcs := s.pcs[t := Returning(pc.slot)])
      else
        s.(log := s.log + [Started(t, pc.slot.key)], pcs := s.pcs[t := Working(pc.slot)])
    case Succeed(v) =>
      s.(cache := Inserted(s.cache, pc.slot.key, v, s.capacity),
         log := s.log + StoreEvents(s, t, pc.slot.key, v), pcs := s.pcs[t := Returning(pc.slot)])
    case Fail =>
      s.(log := s.log + [Ended(t, pc.slot.key, Failed)], pcs := s.pcs[t := Returning(pc.slot)])
    case Unlock =>
      s.(slotLocks := s.slotLocks - {pc.slot}, pcs := s.pcs[t := Finished(pc.slot)])
    case TakeMap =>
      s.(mapLock := Some(t), pcs := s.pcs[t := Cleaning(pc.slot)])
    case ReadCount =>
      var k := pc.slot.key;
      s.(pcs := s.pcs[t := Decided(pc.slot, k in s.inflight && Count(s, s.inflight[k]) == 2)])
    case Sweep =>
      var k := pc.slot.key;
      if pc.remove && k in s.inflight then
        s.(strong := Released(s, s.inflight[k]), inflight := s.inflight - {k}, pcs := s.pcs[t := Swept(pc.slot)])
      else
        s.(pcs := s.pcs[t := Swept(pc.slot)])
    case ReleaseMap =>
      s.(mapLock := None, pcs := s.pcs[t := Leaving(pc.slot)])
    case DropSlot =>
      s.(strong := Released(s, pc.slot), pcs := s.pcs[t := Idle])
  }

  // ---- runs --------------------------------------------------------------

  /** The state a schedule leads to, if every step of it is enabled in turn. */
  function Exec(s: State, schedule: seq<(Thread, Action)>): Option<State> {
    if schedule == [] then Some(s)
    else
      var last := schedule[|schedule| - 1];
      match Exec(s, schedule[..|schedule| - 1])
      case None => None
      case Some(m) => if Enabled(m, last.0, last.1) then Some(Do(m, last.0, last.1)) else None
  }

  ghost predicate Reachable(threads: set<Thread>, capacity: nat, s: State) {
    exists schedule :: Exec(Init(threads, capacity), schedule) == Some(s)
  }

  // ---- the invariant -----------------------------------------------------

  predicate HasSlot(pc: Pc) {
    !pc.Idle? && !pc.Missed?
  }

  /** Threads whose clone of `slot` is alive. */
  function Refs(s: State, slot: Slot): set<Thread> {
    set t | t in s.pcs && HasSlot(s.pcs[t]) && s.pcs[t].slot == slot
  }

  predicate Linked(s: State, slot: Slot) {
    slot.key in s.inflight && s.inflight[slot.key] == slot
  }

  predicate HoldsSlotLock(pc: Pc) {
    pc.Holding? || pc.Working? || pc.Returning?
  }

  predicate HoldsMapLock(pc: Pc) {
    pc.Cleaning? || pc.Decided? || pc.Swept?
  }

  /** Still needs its slot to be the one other threads will find. */
  predicate NeedsLink(pc: Pc) {
    HasSlot(pc) && !pc.Swept? && !pc.Leaving?
  }

  ghost predicate Counted(s: State) {
    forall slot :: CountRight(s, slot)
  }

  ghost predicate CountRight(s: State, slot: Slot) {
    Count(s, slot) == (if Linked(s, slot) then 1 else 0) + |Refs(s, slot)|
  }

  ghost predicate SlotLocked(s: State) {
    && (forall t :: t in s.pcs && HoldsSlotLock(s.pcs[t]) ==>
          s.pcs[t].slot in s.slotLocks && s.slotLocks[s.pcs[t].slot] == t)
    && (forall slot :: slot in s.slotLocks ==>
          s.slotLocks[slot] in s.pcs && HoldsSlotLock(s.pcs[s.slotLocks[slot]])
          && s.pcs[s.slotLocks[slot]].slot == slot)
  }

  ghost predicate MapLocked(s: State) {
    && (forall t :: t in s.pcs ==> (HoldsMapLock(s.pcs[t]) <==> s.mapLock == Some(t)))
    && (s.mapLock.Some? ==> s.mapLock.value in s.pcs)
  }

  ghost predicate Serials(s: State) {
    && (forall k :: k in s.inflight ==> s.inflight[k].key == k && s.inflight[k].serial < s.serials)
    && (forall t :: t in s.pcs && HasSlot(s.pcs[t]) ==> s.pcs[t].slot.serial < s.serials)
  }

  ghost predicate LinkedSlots(s: State) {
    && Serials(s)
    && (forall t :: t in s.pcs && NeedsLink(s.pcs[t]) ==> Linked(s, s.pcs[t].slot))
    && (forall t :: t in s.pcs && s.pcs[t].Decided? && s.pcs[t].remove ==> Refs(s, s.pcs[t].slot) == {t})
  }

  /** The work started at log position `i` ended before position `j`, and
      anything it stored was evicted again before `j`. */
  ghost predicate Excused(log: seq<Event>, i: nat, j: nat)
    requires i < j <= |log| && log[i].Started?
  {
    exists e :: i < e < j && EndOf(log, i, e)
                && (log[e].outcome.Stored? ==> exists m :: e < m < j && log[m] == Evicted(log[i].key))
  }

  ghost predicate EndOf(log: seq<Event>, i: nat, e: nat)
    requires i < |log| && e < |log| && log[i].Started?
  {
    log[e].Ended? && log[e].thread == log[i].thread && log[e].key == log[i].key
  }

  ghost predicate EndedSince(log: seq<Event>, i: nat)
    requires i < |log| && log[i].Started?
  {
    exists e :: i < e < |log| && EndOf(log, i, e)
  }

  ghost predicate OneAtATime(log: seq<Event>) {
    forall i, j :: 0 <= i < j < |log| && log[i].Started? && log[j].Started? && log[i].key == log[j].key ==>
                     Excused(log, i, j)
  }

  /** Every piece of work is still going on, still cached, or excused. */
  ghost predicate Accounted(s: State) {
    forall i :: 0 <= i < |s.log| && s.log[i].Started? ==> AccountedAt(s, i)
  }

  ghost predicate AccountedAt(s: State, i: nat)
    requires i < |s.log| && s.log[i].Started?
  {
    || Excused(s.log, i, |s.log|)
    || (EndedSince(s.log, i) && Holds(s.cache, s.log[i].key))
    || (s.log[i].thread in s.pcs && s.pcs[s.log[i].thread].Working?
        && s.pcs[s.log[i].thread].slot.key == s.log[i].key)
  }

  ghost predicate Inv(s: State) {
    && DistinctKeys(s.cache)
    && Counted(s)
    && SlotLocked(s)
    && MapLocked(s)
    && LinkedSlots(s)
    && OneAtATime(s.log)
    && Accounted(s)
  }

  // ---- every step keeps it -----------------------------------------------

  lemma RefsUpdate(s: State, t: Thread, pc: Pc, slot: Slot)
    requires t in s.pcs
    ensures Refs(s.(pcs := s.pcs[t := pc]), slot)
         == if HasSlot(pc) && pc.slot == slot then Refs(s, slot) + {t} else Refs(s, slot) - {t}
  {
  }

  /** Only `t` moved, and neither clones nor the map changed. */
  ghost predicate KeepsClones(s: State, s': State, t: Thread) {
    && t in s.pcs && t in s'.pcs && s'.pcs == s.pcs[t := s'.pcs[t]]
    && s'.strong == s.strong && s'.inflight == s.inflight && s'.serials == s.serials
    && HasSlot(s'.pcs[t]) == HasSlot(s.pcs[t])
    && (HasSlot(s.pcs[t]) ==> s'.pcs[t].slot == s.pcs[t].slot)
  }

  lemma MostStepsKeepClones(s: State, t: Thread, a: Action)
    requires Enabled(s, t, a) && !a.Enter? && !a.Sweep? && !a.DropSlot?
    ensures KeepsClones(s, Do(s, t, a), t)
  {
  }

  lemma KeptClonesKeepRefs(s: State, s': State, t: Thread, slot: Slot)
    requires KeepsClones(s, s', t)
    ensures Refs(s', slot) == Refs(s, slot)
  {
  }

  lemma CountedStep(s: State, t: Thread, a: Action)
    requires Counted(s) && LinkedSlots(s) && Enabled(s, t, a)
    ensures Counted(Do(s, t, a))
  {
    forall slot ensures CountRight(Do(s, t, a), slot) {
      assert CountRight(s, slot);
      match a
      case Enter => CountedEnter(s, t, slot);
      case Sweep => CountedSweep(s, t, slot);
      case DropSlot => CountedDrop(s, t, slot);
      case _ =>
        MostStepsKeepClones(s, t, a);
        KeptClonesKeepRefs(s, Do(s, t, a), t, slot);
    }
  }

  lemma CountedEnter(s: State, t: Thread, slot: Slot)
    requires CountRight(s, slot) && Serials(s) && Enabled(s, t, Enter)
    ensures CountRight(Do(s, t, Enter), slot)
  {
    var k := s.pcs[t].wanted;
    var taken := if k in s.inflight then s.inflight[k] else Slot(k, s.serials);
    RefsGrow(s, Do(s, t, Enter), t, taken, slot);
    if k !in s.inflight && slot == taken {
      assert Refs(s, slot) == {};
    }
  }

  lemma RefsGrow(s: State, s': State, t: Thread, taken: Slot, slot: Slot)
    requires t in s.pcs && !HasSlot(s.pcs[t]) && s'.pcs == s.pcs[t := Waiting(taken)]
    ensures |Refs(s', slot)| == |Refs(s, slot)| + if slot == taken then 1 else 0
  {
    if slot == taken {
      assert t !in Refs(s, slot) && Refs(s', slot) == Refs(s, slot) + {t};
    } else {
      assert Refs(s', slot) == Refs(s, slot);
    }
  }

  lemma CountedSweep(s: State, t: Thread, slot: Slot)
    requires CountRight(s, slot) && Serials(s) && Enabled(s, t, Sweep)
    ensures CountRight(Do(s, t, Sweep), slot)
  {
    var s' := Do(s, t, Sweep);
    assert Refs(s', slot) == Refs(s, slot);
  }

  lemma CountedDrop(s: State, t: Thread, slot: Slot)
    requires CountRight(s, slot) && Enabled(s, t, DropSlot)
    ensures CountRight(Do(s, t, DropSlot), slot)
  {
    var s' := Do(s, t, DropSlot);
    RefsUpdate(s, t, s'.pcs[t], slot);
    assert Refs(s', slot) == Refs(s.(pcs := s'.pcs), slot);
    assert s.pcs[t].slot == slot ==> t in Refs(s, slot);
  }

  /** Only `t` moved, and it holds the same slot lock as before, if any. */
  ghost predicate KeepsSlotLocks(s: State, s': State, t: Thread) {
    && t in s.pcs && t in s'.pcs && s'.pcs == s.pcs[t := s'.pcs[t]]
    && s'.slotLocks == s.slotLocks
    && HoldsSlotLock(s'.pcs[t]) == HoldsSlotLock(s.pcs[t])
    && (HoldsSlotLock(s.pcs[t]) ==> s'.pcs[t].slot == s.pcs[t].slot)
  }

  lemma MostStepsKeepSlotLocks(s: State, t: Thread, a: Action)
    requires Enabled(s, t, a) && !a.Lock? && !a.Unlock?
    ensures KeepsSlotLocks(s, Do(s, t, a), t)
  {
  }

  lemma SlotLockedKept(s: State, s': State, t: Thread)
    requires SlotLocked(s) && KeepsSlotLocks(s, s', t)
    ensures SlotLocked(s')
  {
  }

  lemma LockedStep(s: State, t: Thread, a: Action)
    requires SlotLocked(s) && Enabled(s, t, a)
    ensures SlotLocked(Do(s, t, a))
  {
    if !a.Lock? && !a.Unlock? {
      MostStepsKeepSlotLocks(s, t, a);
      SlotLockedKept(s, Do(s, t, a), t);
    }
  }

  /** Only two actions touch the map lock across steps. */
  lemma MapLockUse(s: State, t: Thread, a: Action)
    requires Enabled(s, t, a)
    ensures t in s.pcs && Do(s, t, a).pcs == s.pcs[t := Do(s, t, a).pcs[t]]
    ensures HoldsMapLock(Do(s, t, a).pcs[t]) <==> a.TakeMap? || (!a.ReleaseMap? && HoldsMapLock(s.pcs[t]))
    ensures a.TakeMap? ==> s.mapLock.None?
    ensures a.ReleaseMap? ==> HoldsMapLock(s.pcs[t])
    ensures Do(s, t, a).mapLock == if a.TakeMap? then Some(t) else if a.ReleaseMap? then None else s.mapLock
  {
    hide Released, Count, Touch, Find, Inserted, StoreEvents;
  }

  lemma MapLockedStep(s: State, t: Thread, a: Action)
    requires MapLocked(s) && Enabled(s, t, a)
    ensures MapLocked(Do(s, t, a))
  {
    hide Do, Enabled, HoldsMapLock;
    MapLockUse(s, t, a);
  }

  lemma LinkedStep(s: State, t: Thread, a: Action)
    requires LinkedSlots(s) && Counted(s) && MapLocked(s) && Enabled(s, t, a)
    ensures LinkedSlots(Do(s, t, a))
  {
    match a
    case Enter => LinkedEnter(s, t);
    case Sweep => LinkedSweep(s, t);
    case DropSlot => LinkedDrop(s, t);
    case ReadCount => LinkedRead(s, t);
    case _ =>
      MostStepsKeepClones(s, t, a);
      LinkedKept(s, Do(s, t, a), t);
  }

  lemma LinkedKept(s: State, s': State, t: Thread)
    requires LinkedSlots(s) && KeepsClones(s, s', t)
    requires NeedsLink(s'.pcs[t]) ==> NeedsLink(s.pcs[t])
    requires !s'.pcs[t].Decided?
    ensures LinkedSlots(s')
  {
    forall slot ensures Refs(s', slot) == Refs(s, slot) {
      KeptClonesKeepRefs(s, s', t, slot);
    }
  }

  lemma LinkedEnter(s: State, t: Thread)
    requires LinkedSlots(s) && MapLocked(s) && Enabled(s, t, Enter)
    ensures LinkedSlots(Do(s, t, Enter))
  {
    var s' := Do(s, t, Enter);
    forall u | u in s'.pcs ensures !s'.pcs[u].Decided? {
      // Deciding threads hold the map lock, which is free.
      assert !HoldsMapLock(s.pcs[u]);
    }
  }

  lemma LinkedSweep(s: State, t: Thread)
    requires LinkedSlots(s) && MapLocked(s) && Enabled(s, t, Sweep)
    ensures LinkedSlots(Do(s, t, Sweep))
  {
    var s' := Do(s, t, Sweep);
    forall u | u in s'.pcs ensures !s'.pcs[u].Decided? {
      assert HoldsMapLock(s.pcs[u]) ==> s.mapLock == Some(u);
      assert HoldsMapLock(s.pcs[t]);
    }
    forall u | u in s'.pcs && NeedsLink(s'.pcs[u]) ensures Linked(s', s'.pcs[u].slot) {
      // A removal means the count of two was the map's reference and ours.
      assert u in Refs(s, s.pcs[u].slot);
    }
  }

  lemma LinkedDrop(s: State, t: Thread)
    requires LinkedSlots(s) && Enabled(s, t, DropSlot)
    ensures LinkedSlots(Do(s, t, DropSlot))
  {
    var s' := Do(s, t, DropSlot);
    forall u | u in s'.pcs && s'.pcs[u].Decided? && s'.pcs[u].remove ensures Refs(s', s'.pcs[u].slot) == {u} {
      RefsUpdate(s, t, Idle, s.pcs[u].slot);
      assert Refs(s', s.pcs[u].slot) == Refs(s.(pcs := s'.pcs), s.pcs[u].slot);
    }
  }

  lemma LinkedRead(s: State, t: Thread)
    requires LinkedSlots(s) && Counted(s) && MapLocked(s) && Enabled(s, t, ReadCount)
    ensures LinkedSlots(Do(s, t, ReadCount))
  {
    var s' := Do(s, t, ReadCount);
    var slot := s.pcs[t].slot;
    KeptClonesKeepRefs(s, s', t, slot);
    forall u | u in s'.pcs && s'.pcs[u].Decided? ensures u == t {
      assert HoldsMapLock(s'.pcs[u]);
    }
    if s'.pcs[t].remove {
      assert CountRight(s, slot) && t in Refs(s, slot);
      SoleMember(Refs(s, slot), t);
    }
  }

  lemma SoleMember(ts: set<Thread>, t: Thread)
    requires t in ts && |ts| == 1
    ensures ts == {t}
  {
    assert |ts - {t}| == 0;
  }

  /** Two threads holding slot locks for one key are the same thread. */
  lemma OneHolderPerKey(s: State, t: Thread, u: Thread)
    requires Inv(s) && t in s.pcs && u in s.pcs
    requires HoldsSlotLock(s.pcs[t]) && HoldsSlotLock(s.pcs[u]) && s.pcs[t].slot.key == s.pcs[u].slot.key
    ensures t == u
  {
    assert Linked(s, s.pcs[t].slot) && Linked(s, s.pcs[u].slot);
  }

  lemma ExcusedLonger(log: seq<Event>, more: seq<Event>, i: nat, j: nat)
    requires i < j <= |log| && log[i].Started?
    ensures Excused(log, i, j) <==> Excused(log + more, i, j)
    ensures Excused(log, i, j) ==> Excused(log + more, i, |log + more|)
  {
    var l := log + more;
    assert forall e :: 0 <= e < j ==> l[e] == log[e];
    if Excused(log, i, j) {
      var e :| i < e < j && EndOf(log, i, e)
                && (log[e].outcome.Stored? ==> exists m :: e < m < j && log[m] == Evicted(log[i].key));
      assert EndOf(l, i, e);
      if log[e].outcome.Stored? {
        var m :| e < m < j && log[m] == Evicted(log[i].key);
        assert l[m] == Evicted(l[i].key);
      }
      assert Excused(l, i, j);
      assert Excused(l, i, |l|);
    }
    if Excused(l, i, j) {
      var e :| i < e < j && EndOf(l, i, e)
                && (l[e].outcome.Stored? ==> exists m :: e < m < j && l[m] == Evicted(l[i].key));
      assert EndOf(log, i, e);
    }
  }

  lemma EndedLonger(log: seq<Event>, more: seq<Event>, i: nat)
    requires i < |log| && log[i].Started?
    ensures EndedSince(log, i) ==> EndedSince(log + more, i)
  {
    if EndedSince(log, i) {
      var e :| i < e < |log| && EndOf(log, i, e);
      assert EndOf(log + more, i, e);
    }
  }

  lemma OneAtATimeLonger(log: seq<Event>, more: seq<Event>)
    requires OneAtATime(log)
    requires forall e :: e in more ==> !e.Started?
    ensures OneAtATime(log + more)
  {
    var l := log + more;
    forall i, j | 0 <= i < j < |l| && l[i].Started? && l[j].Started? && l[i].key == l[j].key
      ensures Excused(l, i, j)
    {
      assert forall n :: |log| <= n < |l| ==> l[n] in more;
      ExcusedLonger(log, more, i, j);
    }
  }

  /** Starting work is allowed only when all earlier work on the key is
      excused: the re-check missed and nobody else can be working. */
  lemma StartStep(s: State, t: Thread)
    requires Inv(s) && Enabled(s, t, Recheck) && Find(s.cache, s.pcs[t].slot.key).None?
    ensures OneAtATime(Do(s, t, Recheck).log) && Accounted(Do(s, t, Recheck))
  {
    var k := s.pcs[t].slot.key;
    var more := [Started(t, k)];
    var l := s.log + more;
    forall i | 0 <= i < |s.log| && s.log[i].Started? && s.log[i].key == k ensures Excused(s.log, i, |s.log|) {
      assert AccountedAt(s, i);
      var u := s.log[i].thread;
      if u in s.pcs && s.pcs[u].Working? && s.pcs[u].slot.key == k {
        OneHolderPerKey(s, t, u);
      }
    }
    forall i, j | 0 <= i < j < |l| && l[i].Started? && l[j].Started? && l[i].key == l[j].key
      ensures Excused(l, i, j)
    {
      ExcusedLonger(s.log, more, i, j);
    }
    var s' := Do(s, t, Recheck);
    forall i | 0 <= i < |l| && l[i].Started?
      ensures AccountedAt(s', i)
    {
      if i < |s.log| {
        assert AccountedAt(s, i);
        ExcusedLonger(s.log, more, i, |s.log|);
        EndedLonger(s.log, more, i);
      }
    }
  }

  lemma KeyInSuffix(es: Entries<Key>, n: nat, i: nat)
    requires n <= |es| && i < |es| && !Holds(es[n..], es[i].0)
    ensures i < n
  {
    assert forall j :: n <= j < |es| ==> es[n..][j - n] == es[j];
  }

  /** Keys that leave the cache on an insert are exactly the ones logged. */
  lemma DroppedKeysAreLogged(s: State, t: Thread, own: Key, v: seq<byte>, k: Key)
    requires DistinctKeys(s.cache) && |v| <= s.capacity
    requires Holds(s.cache, k) && !Holds(Inserted(s.cache, own, v, s.capacity), k)
    ensures Evicted(k) in StoreEvents(s, t, own, v)[1..]
  {
    var rest := Without(s.cache, own);
    var pushed := rest + [(own, v)];
    InsertEffect(s.cache, own, v, s.capacity);
    WithoutMembers(s.cache, own);
    assert Holds(rest, k);
    var i :| 0 <= i < |rest| && rest[i].0 == k;
    var n := EvictDropsShortestPrefix(pushed, s.capacity);
    KeyInSuffix(pushed, n, i);
    var events := EvictedKeys(pushed, n);
    assert StoreEvents(s, t, own, v)[1..] == events;
    assert events[i] == Evicted(k);
  }

  lemma StoreStartsNothing(s: State, t: Thread, k: Key, v: seq<byte>)
    ensures forall n :: 0 <= n < |StoreEvents(s, t, k, v)| ==> !StoreEvents(s, t, k, v)[n].Started?
  {
  }

  lemma SucceedStep(s: State, t: Thread, v: seq<byte>)
    requires Inv(s) && Enabled(s, t, Succeed(v))
    ensures OneAtATime(Do(s, t, Succeed(v)).log) && Accounted(Do(s, t, Succeed(v)))
  {
    hide AccountedAt, OneAtATime, Counted, SlotLocked, MapLocked, LinkedSlots, Inserted, Evict, Without, StoreEvents;
    var s' := Do(s, t, Succeed(v));
    var more := StoreEvents(s, t, s.pcs[t].slot.key, v);
    StoreStartsNothing(s, t, s.pcs[t].slot.key, v);
    assert s'.log == s.log + more;
    OneAtATimeLonger(s.log, more);
    forall i | 0 <= i < |s'.log| && s'.log[i].Started? ensures AccountedAt(s', i) {
      assert forall n :: |s.log| <= n < |s'.log| ==> s'.log[n] == more[n - |s.log|];
      assert i < |s.log|;
      assert AccountedAt(s, i);
      SucceedAt(s, t, v, i);
    }
  }

  lemma SucceedAt(s: State, t: Thread, v: seq<byte>, i: nat)
    requires DistinctKeys(s.cache) && Enabled(s, t, Succeed(v)) && i < |s.log| && s.log[i].Started? && AccountedAt(s, i)
    ensures AccountedAt(Do(s, t, Succeed(v)), i)
  {
    hide Excused, EndedSince;
    var k := s.pcs[t].slot.key;
    var s' := Do(s, t, Succeed(v));
    var more := StoreEvents(s, t, k, v);
    ExcusedLonger(s.log, more, i, |s.log|);
    EndedLonger(s.log, more, i);
    if Excused(s.log, i, |s.log|) {
    } else if EndedSince(s.log, i) && Holds(s.cache, s.log[i].key) {
      if !Holds(s'.cache, s.log[i].key) {
        DroppedKeysAreLogged(s, t, k, v, s.log[i].key);
        EvictionExcuses(s.log, more, i);
      }
    } else if s.log[i].thread == t {
      InsertEffect(s.cache, k, v, s.capacity);
      EndingCounts(s.log, more, i);
    }
  }

  lemma EvictionExcuses(log: seq<Event>, more: seq<Event>, i: nat)
    requires i < |log| && log[i].Started? && EndedSince(log, i)
    requires more != [] && Evicted(log[i].key) in more[1..]
    ensures Excused(log + more, i, |log + more|)
  {
    var l := log + more;
    var e :| i < e < |log| && EndOf(log, i, e);
    var m :| 0 <= m < |more[1..]| && more[1..][m] == Evicted(log[i].key);
    assert l[|log| + 1 + m] == Evicted(l[i].key);
    assert EndOf(l, i, e);
  }

  /** The end of a run is on record; unless its result was stored, that is
      already the excuse. */
  lemma EndingCounts(log: seq<Event>, more: seq<Event>, i: nat)
    requires i < |log| && log[i].Started? && more != []
    requires more[0].Ended? && more[0].thread == log[i].thread && more[0].key == log[i].key
    ensures EndedSince(log + more, i)
    ensures !more[0].outcome.Stored? ==> Excused(log + more, i, |log + more|)
  {
    assert (log + more)[|log|] == more[0];
    assert EndOf(log + more, i, |log|);
  }

  lemma FailStep(s: State, t: Thread)
    requires Inv(s) && Enabled(s, t, Fail)
    ensures OneAtATime(Do(s, t, Fail).log) && Accounted(Do(s, t, Fail))
  {
    var k := s.pcs[t].slot.key;
    var more := [Ended(t, k, Failed)];
    var s' := Do(s, t, Fail);
    var l := s'.log;
    OneAtATimeLonger(s.log, more);
    forall i | 0 <= i < |l| && l[i].Started?
      ensures AccountedAt(s', i)
    {
      assert AccountedAt(s, i);
      ExcusedLonger(s.log, more, i, |s.log|);
      EndedLonger(s.log, more, i);
      if l[i].thread == t && l[i].key == k {
        EndingCounts(s.log, more, i);
      }
    }
  }

  /** Neither the log nor the cached keys change, and whoever works goes on. */
  ghost predicate Quiet(s: State, s': State) {
    && s'.log == s.log && (forall k :: Holds(s.cache, k) ==> Holds(s'.cache, k))
    && forall u :: u in s.pcs && s.pcs[u].Working? ==> u in s'.pcs && s'.pcs[u] == s.pcs[u]
  }

  lemma QuietStep(s: State, s': State)
    requires Accounted(s) && Quiet(s, s')
    ensures Accounted(s')
  {
    hide Excused, EndedSince, Holds;
    forall i | 0 <= i < |s'.log| && s'.log[i].Started? ensures AccountedAt(s', i) {
      assert AccountedAt(s, i);
    }
  }

  lemma MostStepsAreQuiet(s: State, t: Thread, a: Action)
    requires DistinctKeys(s.cache) && Enabled(s, t, a) && !a.Succeed? && !a.Fail?
    requires a.Recheck? ==> Find(s.cache, s.pcs[t].slot.key).Some?
    ensures Quiet(s, Do(s, t, a)) && DistinctKeys(Do(s, t, a).cache)
  {
    hide Find, Touch, DistinctKeys, Holds, Released, Count;
    match a
    case Recheck =>
      TouchKeepsContents(s.cache, s.pcs[t].slot.key);
      TouchKeepsKeys(s.cache, s.pcs[t].slot.key);
    case Call(k) =>
      TouchKeepsContents(s.cache, k);
      TouchKeepsKeys(s.cache, k);
    case _ =>
  }

  lemma LogStep(s: State, t: Thread, a: Action)
    requires Inv(s) && Enabled(s, t, a)
    ensures OneAtATime(Do(s, t, a).log) && Accounted(Do(s, t, a)) && DistinctKeys(Do(s, t, a).cache)
  {
    hide OneAtATime, Accounted, Counted, SlotLocked, MapLocked, LinkedSlots, Inserted, StoreEvents, Holds;
    if a.Succeed? {
      InsertEffect(s.cache, s.pcs[t].slot.key, a.value, s.capacity);
      SucceedStep(s, t, a.value);
    } else if a.Fail? {
      FailStep(s, t);
    } else if a.Recheck? && Find(s.cache, s.pcs[t].slot.key).None? {
      StartStep(s, t);
    } else {
      MostStepsAreQuiet(s, t, a);
      QuietStep(s, Do(s, t, a));
    }
  }

  lemma TouchKeepsKeys(es: Entries<Key>, k: Key)
    requires DistinctKeys(es)
    ensures forall l :: Holds(Touch(es, k), l) <==> Holds(es, l)
  {
    TouchKeepsContents(es, k);
    forall l ensures Holds(Touch(es, k), l) <==> Holds(es, l) {
      assert Find(Touch(es, k), l) == Find(es, l);
    }
  }

  /** Every step of every thread keeps the invariant. */
  lemma StepKeepsInv(s: State, t: Thread, a: Action)
    requires Inv(s) && Enabled(s, t, a)
    ensures Inv(Do(s, t, a))
  {
    CountedStep(s, t, a);
    LockedStep(s, t, a);
    MapLockedStep(s, t, a);
    LinkedStep(s, t, a);
    LogStep(s, t, a);
  }

  lemma {:induction false} RunKeepsInv(threads: set<Thread>, capacity: nat, schedule: seq<(Thread, Action)>)
    requires Exec(Init(threads, capacity), schedule).Some?
    ensures Inv(Exec(Init(threads, capacity), schedule).value)
  {
    if schedule == [] {
      var s := Init(threads, capacity);
      forall slot ensures Refs(s, slot) == {} {}
    } else {
      var last := schedule[|schedule| - 1];
      RunKeepsInv(threads, capacity, schedule[..|schedule| - 1]);
      StepKeepsInv(Exec(Init(threads, capacity), schedule[..|schedule| - 1]).value, last.0, last.1);
    }
  }

  lemma ReachableInv(threads: set<Thread>, capacity: nat, s: State)
    requires Reachable(threads, capacity, s)
    ensures Inv(s)
  {
    var schedule :| Exec(Init(threads, capacity), schedule) == Some(s);
    RunKeepsInv(threads, capacity, schedule);
  }

  // ---- the theorems ------------------------------------------------------

  /** Two threads are never inside the closure for one key at once. */
  lemma WorkNeverOverlaps(threads: set<Thread>, capacity: nat, s: State, t: Thread, u: Thread)
    requires Reachable(threads, capacity, s) && t in s.pcs && u in s.pcs && t != u
    requires HoldsSlotLock(s.pcs[t]) && HoldsSlotLock(s.pcs[u])
    ensures s.pcs[t].slot.key != s.pcs[u].slot.key
  {
    ReachableInv(threads, capacity, s);
    if s.pcs[t].slot.key == s.pcs[u].slot.key {
      OneHolderPerKey(s, t, u);
    }
  }

  /** Work on a key is repeated only after the earlier run ended, and only if
      that run failed, was too large to store, or its result was evicted. */
  lemma RepeatedWorkIsExcused(threads: set<Thread>, capacity: nat, s: State, i: nat, j: nat)
    requires Reachable(threads, capacity, s)
    requires i < j < |s.log| && s.log[i].Started? && s.log[j].Started? && s.log[i].key == s.log[j].key
    ensures Excused(s.log, i, j)
  {
    ReachableInv(threads, capacity, s);
  }

  /** Without failures, refusals or evictions of a key, its work runs once. */
  lemma WorkRunsOnce(threads: set<Thread>, capacity: nat, s: State, k: Key, i: nat, j: nat)
    requires Reachable(threads, capacity, s)
    requires forall e :: e in s.log ==> e != Evicted(k) && (e.Ended? && e.key == k ==> e.outcome == Stored)
    requires i < |s.log| && j < |s.log| && s.log[i].Started? && s.log[j].Started? && s.log[i].key == s.log[j].key == k
    ensures i == j
  {
    if i != j {
      var a, b := if i < j then i else j, if i < j then j else i;
      RepeatedWorkIsExcused(threads, capacity, s, a, b);
    }
  }

  /** The reference count is read as two exactly when no other thread has a
      clone of the slot. */
  lemma RemovalDecision(threads: set<Thread>, capacity: nat, s: State, t: Thread)
    requires Reachable(threads, capacity, s) && Enabled(s, t, ReadCount)
    ensures Do(s, t, ReadCount).pcs[t].remove <==>
            forall u :: u in s.pcs && u != t && HasSlot(s.pcs[u]) ==> s.pcs[u].slot != s.pcs[t].slot
  {
    ReachableInv(threads, capacity, s);
    var slot := s.pcs[t].slot;
    assert t in Refs(s, slot);
    assert CountRight(s, slot);
    if |Refs(s, slot)| == 1 {
      SoleMember(Refs(s, slot), t);
      forall u | u in s.pcs && u != t && HasSlot(s.pcs[u]) ensures s.pcs[u].slot != slot {
        assert s.pcs[u].slot == slot ==> u in Refs(s, slot);
      }
    } else {
      assert Refs(s, slot) != {t};
    }
  }

  /** Some thread that is in a call can always take a step. */
  lemma NoDeadlock(threads: set<Thread>, capacity: nat, s: State, t: Thread) returns (u: Thread, a: Action)
    requires Reachable(threads, capacity, s) && t in s.pcs && !s.pcs[t].Idle?
    ensures u in s.pcs && !s.pcs[u].Idle? && Enabled(s, u, a)
  {
    ReachableInv(threads, capacity, s);
    u := t;
    if s.pcs[t].Waiting? && s.pcs[t].slot in s.slotLocks {
      u := s.slotLocks[s.pcs[t].slot];
    } else if (s.pcs[t].Missed? || s.pcs[t].Finished?) && s.mapLock.Some? {
      u := s.mapLock.value;
    }
    match s.pcs[u]
    case Missed(_) => a := Enter;
    case Waiting(_) => a := Lock;
    case Holding(_) => a := Recheck;
    case Working(_) => a := Fail;
    case Returning(_) => a := Unlock;
    case Finished(_) => a := TakeMap;
    case Cleaning(_) => a := ReadCount;
    case Decided(_, _) => a := Sweep;
    case Swept(_) => a := ReleaseMap;
    case Leaving(_) => a := DropSlot;
  }

  lemma ReachNext(threads: set<Thread>, capacity: nat, s: State, t: Thread, a: Action)
    requires Reachable(threads, capacity, s) && Enabled(s, t, a)
    ensures Reachable(threads, capacity, Do(s, t, a))
  {
    var schedule :| Exec(Init(threads, capacity), schedule) == Some(s);
    var longer := schedule + [(t, a)];
    assert longer[..|longer| - 1] == schedule;
    assert Exec(Init(threads, capacity), longer) == Some(Do(s, t, a));
  }

  /** Lets a waiting thread run its closure without success. */
  lemma RunClosure(threads: set<Thread>, capacity: nat, s: State, t: Thread) returns (r: State)
    requires Reachable(threads, capacity, s) && t in s.pcs && s.pcs[t].Waiting? && s.slotLocks == map[] && s.cache == []
    ensures Reachable(threads, capacity, r)
    ensures r == s.(log := r.log, pcs := s.pcs[t := Finished(s.pcs[t].slot)])
  {
    var a := Do(s, t, Lock);
    ReachNext(threads, capacity, s, t, Lock);
    var b := Do(a, t, Recheck);
    ReachNext(threads, capacity, a, t, Recheck);
    var c := Do(b, t, Fail);
    ReachNext(threads, capacity, b, t, Fail);
    r := Do(c, t, Unlock);
    ReachNext(threads, capacity, c, t, Unlock);
  }

  /** Lets a finished thread clean up while somebody else has a clone. */
  lemma CleanUpAndKeep(threads: set<Thread>, capacity: nat, s: State, t: Thread) returns (r: State)
    requires Reachable(threads, capacity, s) && t in s.pcs && s.pcs[t].Finished? && s.mapLock.None?
    requires s.pcs[t].slot.key in s.inflight && Count(s, s.inflight[s.pcs[t].slot.key]) == 3
    ensures Reachable(threads, capacity, r)
    ensures r == s.(pcs := s.pcs[t := Leaving(s.pcs[t].slot)])
  {
    var a := Do(s, t, TakeMap);
    ReachNext(threads, capacity, s, t, TakeMap);
    var b := Do(a, t, ReadCount);
    ReachNext(threads, capacity, a, t, ReadCount);
    var c := Do(b, t, Sweep);
    ReachNext(threads, capacity, b, t, Sweep);
    r := Do(c, t, ReleaseMap);
    ReachNext(threads, capacity, c, t, ReleaseMap);
  }

  /** Lets two idle threads both miss `k` and clone its slot. */
  lemma BothEnter(threads: set<Thread>, capacity: nat, t: Thread, u: Thread, k: Key) returns (r: State)
    requires t in threads && u in threads && t != u
    ensures Reachable(threads, capacity, r)
    ensures var s := Init(threads, capacity); var slot := Slot(k, 0);
      r == s.(pcs := s.pcs[t := Waiting(slot)][u := Waiting(slot)], serials := 1,
              inflight := map[k := slot], strong := map[slot := 3])
  {
    hide Do, Enabled;
    var s := Init(threads, capacity);
    assert Exec(s, []) == Some(s);
    var a := MissEmpty(threads, capacity, s, t, k);
    var b := MissEmpty(threads, capacity, a, u, k);
    r := EnterBoth(threads, capacity, b, t, u, k);
    assert r.pcs == s.pcs[t := Waiting(Slot(k, 0))][u := Waiting(Slot(k, 0))];
  }

  lemma MissEmpty(threads: set<Thread>, capacity: nat, s: State, t: Thread, k: Key) returns (r: State)
    requires Reachable(threads, capacity, s) && t in s.pcs && s.pcs[t].Idle? && s.cache == []
    ensures Reachable(threads, capacity, r) && r == s.(pcs := s.pcs[t := Missed(k)])
  {
    r := Do(s, t, Call(k));
    ReachNext(threads, capacity, s, t, Call(k));
  }

  lemma EnterBoth(threads: set<Thread>, capacity: nat, s: State, t: Thread, u: Thread, k: Key) returns (r: State)
    requires Reachable(threads, capacity, s) && t in s.pcs && u in s.pcs && t != u && s.mapLock.None?
    requires s.pcs[t] == s.pcs[u] == Missed(k) && s.inflight == map[] && s.strong == map[] && s.serials == 0
    ensures Reachable(threads, capacity, r)
    ensures var slot := Slot(k, 0);
      r == s.(pcs := s.pcs[t := Waiting(slot)][u := Waiting(slot)], serials := 1,
              inflight := map[k := slot], strong := map[slot := 3])
  {
    var a := Do(s, t, Enter);
    ReachNext(threads, capacity, s, t, Enter);
    r := Do(a, u, Enter);
    ReachNext(threads, capacity, a, u, Enter);
  }

  ghost predicate AllIdle(s: State) {
    forall t :: t in s.pcs ==> s.pcs[t].Idle?
  }

  /** Any two threads can leave a slot behind: if both clean up before either
      drops its clone, both read a count of three. */
  lemma SlotCanBeLeftBehind(threads: set<Thread>, capacity: nat, t: Thread, u: Thread, k: Key) returns (s: State)
    requires t in threads && u in threads && t != u
    ensures Reachable(threads, capacity, s) && AllIdle(s) && k in s.inflight
  {
    s := BothEnter(threads, capacity, t, u, k);
    s := RunClosure(threads, capacity, s, t);
    s := RunClosure(threads, capacity, s, u);
    s := CleanUpAndKeep(threads, capacity, s, t);
    s := CleanUpAndKeep(threads, capacity, s, u);
    ReachNext(threads, capacity, s, t, DropSlot);
    s := Do(s, t, DropSlot);
    ReachNext(threads, capacity, s, u, DropSlot);
    s := Do(s, u, DropSlot);
  }

  /** With one thread, a slot in the map is the one it is using, and it
      always decides to remove it. */
  ghost predicate OwnsMap(s: State) {
    && (forall k :: k in s.inflight ==> exists t :: t in s.pcs && NeedsLink(s.pcs[t]) && s.pcs[t].slot == s.inflight[k])
    && (forall t :: t in s.pcs && s.pcs[t].Decided? ==> s.pcs[t].remove)
  }

  ghost predicate Alone(s: State, t: Thread) {
    forall u :: u in s.pcs ==> u == t
  }

  lemma LoneMap(s: State, t: Thread, a: Action, k: Key)
    requires Serials(s) && Enabled(s, t, a) && k in Do(s, t, a).inflight
    requires k in s.inflight ==> NeedsLink(s.pcs[t]) && s.pcs[t].slot == s.inflight[k]
    requires s.pcs[t].Decided? ==> s.pcs[t].remove
    ensures NeedsLink(Do(s, t, a).pcs[t]) && Do(s, t, a).pcs[t].slot == Do(s, t, a).inflight[k]
  {
  }

  lemma LoneRemoves(s: State, t: Thread)
    requires Counted(s) && LinkedSlots(s) && Enabled(s, t, ReadCount) && Alone(s, t)
    ensures Do(s, t, ReadCount).pcs[t].remove
  {
    var slot := s.pcs[t].slot;
    assert Refs(s, slot) == {t};
    assert CountRight(s, slot);
  }

  lemma DecidesOnRead(s: State, t: Thread, a: Action)
    requires Enabled(s, t, a)
    ensures t in s.pcs && Do(s, t, a).pcs == s.pcs[t := Do(s, t, a).pcs[t]]
    ensures Do(s, t, a).pcs[t].Decided? ==> a.ReadCount?
  {
    hide Released, Count, Touch, Find, Inserted, StoreEvents;
  }

  lemma LoneStep(s: State, t: Thread, a: Action)
    requires Inv(s) && OwnsMap(s) && Enabled(s, t, a) && Alone(s, t)
    ensures OwnsMap(Do(s, t, a)) && Alone(Do(s, t, a), t)
  {
    hide Do, Enabled, OneAtATime, Accounted, Counted, SlotLocked, MapLocked;
    var s' := Do(s, t, a);
    DecidesOnRead(s, t, a);
    forall k | k in s'.inflight
      ensures NeedsLink(s'.pcs[t]) && s'.pcs[t].slot == s'.inflight[k]
    {
      assert k in s.inflight ==> NeedsLink(s.pcs[t]) && s.pcs[t].slot == s.inflight[k];
      LoneMap(s, t, a, k);
    }
    if a.ReadCount? {
      LoneRemoves(s, t);
    }
  }

  lemma {:induction false} LoneRun(t: Thread, threads: set<Thread>, capacity: nat, schedule: seq<(Thread, Action)>)
    requires threads <= {t} && Exec(Init(threads, capacity), schedule).Some?
    ensures OwnsMap(Exec(Init(threads, capacity), schedule).value) && Alone(Exec(Init(threads, capacity), schedule).value, t)
  {
    if schedule != [] {
      var before, last := schedule[..|schedule| - 1], schedule[|schedule| - 1];
      LoneRun(t, threads, capacity, before);
      RunKeepsInv(threads, capacity, before);
      LoneStep(Exec(Init(threads, capacity), before).value, last.0, last.1);
    }
  }

  /** "Keys are dropped once nobody holds them": the map is empty whenever all
      threads have returned. */
  ghost predicate KeysDropped(threads: set<Thread>, capacity: nat) {
    forall s :: Reachable(threads, capacity, s) && AllIdle(s) ==> s.inflight == map[]
  }

  /** That holds in every run exactly when at most one thread ever calls. */
  lemma KeysDroppedIff(threads: set<Thread>, capacity: nat)
    ensures KeysDropped(threads, capacity) <==> |threads| <= 1
  {
    if |threads| <= 1 {
      var t := if threads == {} then 0 else var t :| t in threads; t;
      assert threads <= {t} by {
        if threads != {} {
          assert |threads - {t}| == 0;
        }
      }
      forall s | Reachable(threads, capacity, s) && AllIdle(s) ensures s.inflight == map[] {
        var schedule :| Exec(Init(threads, capacity), schedule) == Some(s);
        LoneRun(t, threads, capacity, schedule);
        assert forall k :: k !in s.inflight;
      }
    } else {
      var t :| t in threads;
      assert |threads - {t}| > 0;
      var u :| u in threads - {t};
      var s := SlotCanBeLeftBehind(threads, capacity, t, u, 7);
      assert s.inflight != map[];
    }
  }
}
