/** The per-key lock with garbage collection (pkg/keylock/keylock.go) as an interleaved machine.
    The map mutex, each inner lock and each atomic counter access is a step of its own.  A session is
    one Lock(k) .. Unlock(k) pair, or one Clean; a goroutine that nests several locks is several
    sessions, so its interleavings are among those considered.  That carries safety over to it, not the
    absence of deadlock: no session here waits for another key while it holds one. */
module KeyLockMachine {
  import opened Options

  type Key = string
  type Session = nat
  type LockId = nat

  /** One inner lock: the session counter and the embedded mutex, which is locked while it has a holder.
      The key it was made for and the holder's identity are bookkeeping: no step depends on them. */
  datatype Inner = Inner(key: Key, count: int, holder: Option<Session>)

  /** Where a session stands.  `id` is the inner lock it got from the map when locking; `found` is
      what the lookup in Unlock returned. */
  datatype Pc =
    | Idle
    | LockEntered(key: Key)
    | LockFound(key: Key, id: LockId)
    | LockAdded(key: Key, id: LockId)
    | LockWaiting(key: Key, id: LockId)
    | Holding(key: Key, id: LockId)
    | UnlockEntered(key: Key, id: LockId)
    | UnlockFound(key: Key, id: LockId, found: Option<LockId>)
    | UnlockLeft(key: Key, id: LockId, found: Option<LockId>)
    | UnlockDone(key: Key, id: LockId)
    | Sweeping(todo: set<Key>)
    | SweepLoaded(victim: Key, count: int, todo: set<Key>)

  /** `crashed` records that an inner mutex was unlocked while not locked, which aborts a Go program. */
  datatype State = State(
    mutex: Option<Session>,
    locks: map<Key, LockId>,
    inners: seq<Inner>,
    pcs: map<Session, Pc>,
    crashed: bool)

  datatype Step =
    | LockStart(t: Session, key: Key)
    | LockLookup(t: Session)
    | LockAdd(t: Session)
    | LockLeave(t: Session)
    | LockAcquire(t: Session)
    | UnlockStart(t: Session)
    | UnlockLookup(t: Session)
    | UnlockLeave(t: Session)
    | UnlockMissing(t: Session)
    | UnlockDecrement(t: Session)
    | UnlockRelease(t: Session)
    | CleanStart(t: Session)
    | CleanLoad(t: Session, victim: Key)
    | CleanDecide(t: Session)
    | CleanEnd(t: Session)

  function PcOf(s: State, t: Session): Pc {
    if t in s.pcs then s.pcs[t] else Idle
  }

  /** The guards: program order, and a mutex being free when it is to be taken. */
  ghost predicate Enabled(s: State, step: Step) {
    var pc := PcOf(s, step.t);
    && !s.crashed
    && match step
       case LockStart(_, _) => pc.Idle? && s.mutex.None?
       case LockLookup(_) => pc.LockEntered?
       case LockAdd(_) => pc.LockFound? && pc.id < |s.inners|
       case LockLeave(_) => pc.LockAdded?
       case LockAcquire(_) => pc.LockWaiting? && pc.id < |s.inners| && s.inners[pc.id].holder.None?
       case UnlockStart(_) => pc.Holding? && s.mutex.None?
       case UnlockLookup(_) => pc.UnlockEntered?
       case UnlockLeave(_) => pc.UnlockFound?
       case UnlockMissing(_) => pc.UnlockLeft? && pc.found.None?
       case UnlockDecrement(_) => pc.UnlockLeft? && pc.found.Some? && pc.found.value < |s.inners|
       case UnlockRelease(_) => pc.UnlockDone? && pc.id < |s.inners|
       case CleanStart(_) => pc.Idle? && s.mutex.None?
       case CleanLoad(_, victim) =>
         pc.Sweeping? && victim in pc.todo && victim in s.locks && s.locks[victim] < |s.inners|
       case CleanDecide(_) => pc.SweepLoaded?
       case CleanEnd(_) => pc.Sweeping? && pc.todo == {}
  }

  ghost function At(s: State, t: Session, pc: Pc): State {
    s.(pcs := s.pcs[t := pc])
  }

  ghost function WithInner(s: State, id: LockId, inner: Inner): State
    requires id < |s.inners|
  {
    s.(inners := s.inners[id := inner])
  }

  ghost function Apply(s: State, step: Step): State
    requires Enabled(s, step)
  {
    var t := step.t;
    var pc := PcOf(s, t);
    match step
    case LockStart(_, key) => At(s.(mutex := Some(t)), t, LockEntered(key))
    case LockLookup(_) =>
      if pc.key in s.locks then
        At(s, t, LockFound(pc.key, s.locks[pc.key]))
      else
        var id := |s.inners|;
        At(s.(inners := s.inners + [Inner(pc.key, 0, None)], locks := s.locks[pc.key := id]), t, LockFound(pc.key, id))
    case LockAdd(_) =>
      var inner := s.inners[pc.id];
      At(WithInner(s, pc.id, inner.(count := inner.count + 1)), t, LockAdded(pc.key, pc.id))
    case LockLeave(_) => At(s.(mutex := None), t, LockWaiting(pc.key, pc.id))
    case LockAcquire(_) =>
      At(WithInner(s, pc.id, s.inners[pc.id].(holder := Some(t))), t, Holding(pc.key, pc.id))
    case UnlockStart(_) => At(s.(mutex := Some(t)), t, UnlockEntered(pc.key, pc.id))
    case UnlockLookup(_) =>
      At(s, t, UnlockFound(pc.key, pc.id, if pc.key in s.locks then Some(s.locks[pc.key]) else None))
    case UnlockLeave(_) => At(s.(mutex := None), t, UnlockLeft(pc.key, pc.id, pc.found))
    case UnlockMissing(_) => At(s, t, Idle)
    case UnlockDecrement(_) =>
      var inner := s.inners[pc.found.value];
      At(WithInner(s, pc.found.value, inner.(count := inner.count - 1)), t, UnlockDone(pc.key, pc.found.value))
    case UnlockRelease(_) =>
      if s.inners[pc.id].holder.Some? then
        At(WithInner(s, pc.id, s.inners[pc.id].(holder := None)), t, Idle)
      else
        s.(crashed := true)
    case CleanStart(_) => At(s.(mutex := Some(t)), t, Sweeping(s.locks.Keys))
    case CleanLoad(_, victim) =>
      At(s, t, SweepLoaded(victim, s.inners[s.locks[victim]].count, pc.todo - {victim}))
    case CleanDecide(_) =>
      At(if pc.count == 0 then s.(locks := s.locks - {pc.victim}) else s, t, Sweeping(pc.todo))
    case CleanEnd(_) => At(s.(mutex := None), t, Idle)
  }

  const INIT := State(None, map[], [], map[], false)

  /** Some run of the steps leads from INIT to s. */
  ghost predicate Run(steps: seq<Step>, s: State) {
    if steps == [] then s == INIT
    else
      var last := |steps| - 1;
      exists before ::
        Run(steps[..last], before) && Enabled(before, steps[last]) && s == Apply(before, steps[last])
  }

  // ----- The invariant -----

  /** The session holds the map mutex. */
  ghost predicate InMapSection(pc: Pc) {
    pc.LockEntered? || pc.LockFound? || pc.LockAdded? || pc.UnlockEntered? || pc.UnlockFound?
    || pc.Sweeping? || pc.SweepLoaded?
  }

  /** The session has added itself to a counter and not yet left it. */
  ghost predicate Counts(pc: Pc) {
    pc.LockAdded? || pc.LockWaiting? || pc.Holding? || pc.UnlockEntered? || pc.UnlockFound? || pc.UnlockLeft?
  }

  /** The session owns an inner lock. */
  ghost predicate Owns(pc: Pc) {
    pc.Holding? || pc.UnlockEntered? || pc.UnlockFound? || pc.UnlockLeft? || pc.UnlockDone?
  }

  /** The session knows an inner lock. */
  ghost predicate Refers(pc: Pc) {
    pc.LockFound? || Counts(pc) || Owns(pc)
  }

  ghost function Counted(pcs: map<Session, Pc>, id: LockId): set<Session> {
    set t | t in pcs && CountsOn(pcs[t], id)
  }

  ghost predicate MutexInv(s: State) {
    forall t: Session :: InMapSection(PcOf(s, t)) <==> s.mutex == Some(t)
  }

  /** Every lock in the map exists and was made for the key it is filed under. */
  ghost predicate MapInv(s: State) {
    forall k :: k in s.locks ==> s.locks[k] < |s.inners| && s.inners[s.locks[k]].key == k
  }

  ghost predicate CountInv(s: State) {
    forall id :: 0 <= id < |s.inners| ==> s.inners[id].count == |Counted(s.pcs, id)|
  }

  /** A session that is counted, or about to be, finds its lock in the map. */
  ghost predicate Mapped(s: State, pc: Pc) {
    && (pc.LockFound? || Counts(pc) ==> pc.key in s.locks && s.locks[pc.key] == pc.id)
    && (pc.UnlockFound? || pc.UnlockLeft? ==> pc.found == Some(pc.id))
    && (pc.SweepLoaded? ==>
          && pc.victim in s.locks && pc.victim !in pc.todo && pc.todo <= s.locks.Keys
          && s.locks[pc.victim] < |s.inners|
          && (pc.count == 0 ==> s.inners[s.locks[pc.victim]].count <= 0))
    && (pc.Sweeping? ==> pc.todo <= s.locks.Keys)
  }

  ghost predicate MappedInv(s: State) {
    forall t: Session :: Mapped(s, PcOf(s, t))
  }

  /** A session only knows locks that were made for its key. */
  ghost predicate KeyInv(s: State) {
    forall t: Session :: Refers(PcOf(s, t)) ==>
      PcOf(s, t).id < |s.inners| && s.inners[PcOf(s, t).id].key == PcOf(s, t).key
  }

  /** An inner lock is locked exactly while one session owns it. */
  ghost predicate OwnerInv(s: State) {
    && (forall t: Session :: Owns(PcOf(s, t)) ==>
          PcOf(s, t).id < |s.inners| && s.inners[PcOf(s, t).id].holder == Some(t))
    && (forall id :: 0 <= id < |s.inners| && s.inners[id].holder.Some? ==>
          Owns(PcOf(s, s.inners[id].holder.value)) && PcOf(s, s.inners[id].holder.value).id == id)
  }

  ghost predicate Inv(s: State) {
    !s.crashed && MutexInv(s) && MapInv(s) && CountInv(s) && MappedInv(s) && KeyInv(s) && OwnerInv(s)
  }

  // ----- Every step keeps it -----

  /** The session is counted on this lock. */
  ghost predicate CountsOn(pc: Pc, id: LockId) {
    Counts(pc) && pc.id == id
  }

  lemma MovingCounts(pcs: map<Session, Pc>, t: Session, pc: Pc, id: LockId)
    ensures |Counted(pcs[t := pc], id)|
         == |Counted(pcs, id)| - (if t in pcs && CountsOn(pcs[t], id) then 1 else 0)
            + (if CountsOn(pc, id) then 1 else 0)
  {
    hide CountsOn;
    var others := Counted(pcs - {t}, id);
    assert t !in others;
    assert Counted(pcs, id) == if t in pcs && CountsOn(pcs[t], id) then others + {t} else others;
    assert Counted(pcs[t := pc], id) == if CountsOn(pc, id) then others + {t} else others;
  }

  lemma CountKept(s: State, step: Step)
    requires Inv(s) && Enabled(s, step) && !Apply(s, step).crashed
    ensures CountInv(Apply(s, step))
  {
    var after := Apply(s, step);
    var t := step.t;
    forall id | 0 <= id < |after.inners|
      ensures after.inners[id].count == |Counted(after.pcs, id)|
    {
      MovingCounts(s.pcs, t, PcOf(after, t), id);
      assert after.pcs == s.pcs[t := PcOf(after, t)];
      if id == |s.inners| {
        NewLockUncounted(s);
      }
      assert Mapped(s, PcOf(s, t));
    }
  }

  lemma NewLockUncounted(s: State)
    requires Inv(s)
    ensures Counted(s.pcs, |s.inners|) == {}
  {
    forall t | t in Counted(s.pcs, |s.inners|)
      ensures false
    {
      assert Refers(PcOf(s, t));
    }
  }

  lemma MutexKept(s: State, step: Step)
    requires Inv(s) && Enabled(s, step)
    ensures MutexInv(Apply(s, step))
  {
    hide MapInv, CountInv, MappedInv, KeyInv, OwnerInv;
    var after := Apply(s, step);
    assert InMapSection(PcOf(s, step.t)) <==> s.mutex == Some(step.t);
    forall u: Session
      ensures InMapSection(PcOf(after, u)) <==> after.mutex == Some(u)
    {
      if u != step.t {
        OthersStay(s, step, u);
      }
    }
  }

  lemma MapKept(s: State, step: Step)
    requires Inv(s) && Enabled(s, step)
    ensures MapInv(Apply(s, step))
  {
    hide MutexInv, CountInv, MappedInv, KeyInv, OwnerInv;
  }

  lemma KeyKept(s: State, step: Step)
    requires Inv(s) && Enabled(s, step)
    ensures KeyInv(Apply(s, step))
  {
    OwnMapped(s, step.t);
    hide MutexInv, CountInv, MappedInv, OwnerInv;
    var after := Apply(s, step);
    forall u: Session | Refers(PcOf(after, u))
      ensures PcOf(after, u).id < |after.inners| && after.inners[PcOf(after, u).id].key == PcOf(after, u).key
    {
      LocksKeepKeys(s, step);
      if u != step.t {
        OthersStay(s, step, u);
      }
    }
  }

  lemma OwnMapped(s: State, t: Session)
    requires Inv(s)
    ensures Mapped(s, PcOf(s, t))
  {
  }

  lemma LocksKeepKeys(s: State, step: Step)
    requires Enabled(s, step)
    ensures var after := Apply(s, step);
            forall id :: 0 <= id < |s.inners| ==> id < |after.inners| && after.inners[id].key == s.inners[id].key
  {
  }

  lemma OthersStay(s: State, step: Step, u: Session)
    requires Enabled(s, step) && u != step.t
    ensures PcOf(Apply(s, step), u) == PcOf(s, u)
  {
  }

  /** Which locks a step can touch: only the one its session knows. */
  lemma OnlyOwnLockTouched(s: State, step: Step, id: LockId)
    requires Inv(s) && Enabled(s, step) && id < |s.inners|
    ensures var after := Apply(s, step);
            && id < |after.inners|
            && (after.inners[id].holder != s.inners[id].holder ==>
                  PcOf(s, step.t).id == id && (step.LockAcquire? || step.UnlockRelease?))
  {
    assert Mapped(s, PcOf(s, step.t));
  }

  lemma NeverCrashes(s: State, step: Step)
    requires Inv(s) && Enabled(s, step)
    ensures !Apply(s, step).crashed
  {
    assert Owns(PcOf(s, step.t)) ==> s.inners[PcOf(s, step.t).id].holder == Some(step.t);
  }

  lemma OwnersHold(s: State, step: Step, u: Session)
    requires Inv(s) && Enabled(s, step) && !Apply(s, step).crashed
    requires Owns(PcOf(Apply(s, step), u))
    ensures var after := Apply(s, step);
            PcOf(after, u).id < |after.inners| && after.inners[PcOf(after, u).id].holder == Some(u)
  {
    OwnMapped(s, step.t);
    hide MutexInv, CountInv, MappedInv, MapInv, KeyInv;
    if u != step.t {
      OthersStay(s, step, u);
      OnlyOwnLockTouched(s, step, PcOf(s, u).id);
    }
  }

  lemma HoldersOwn(s: State, step: Step, id: LockId)
    requires Inv(s) && Enabled(s, step) && !Apply(s, step).crashed
    requires id < |Apply(s, step).inners| && Apply(s, step).inners[id].holder.Some?
    ensures var after := Apply(s, step);
            Owns(PcOf(after, after.inners[id].holder.value)) && PcOf(after, after.inners[id].holder.value).id == id
  {
    OwnMapped(s, step.t);
    hide MutexInv, CountInv, MappedInv, MapInv, KeyInv;
    var u := Apply(s, step).inners[id].holder.value;
    if u != step.t {
      OthersStay(s, step, u);
      OnlyOwnLockTouched(s, step, id);
    }
  }

  lemma OwnerKept(s: State, step: Step)
    requires Inv(s) && Enabled(s, step)
    ensures OwnerInv(Apply(s, step))
  {
    hide Inv, Apply;
    var after := Apply(s, step);
    NeverCrashes(s, step);
    forall u: Session | Owns(PcOf(after, u))
      ensures PcOf(after, u).id < |after.inners| && after.inners[PcOf(after, u).id].holder == Some(u)
    {
      OwnersHold(s, step, u);
    }
    forall id | 0 <= id < |after.inners| && after.inners[id].holder.Some?
      ensures Owns(PcOf(after, after.inners[id].holder.value)) && PcOf(after, after.inners[id].holder.value).id == id
    {
      HoldersOwn(s, step, id);
    }
  }

  lemma MappedKept(s: State, step: Step)
    requires Inv(s) && Enabled(s, step)
    ensures MappedInv(Apply(s, step))
  {
    var after := Apply(s, step);
    forall u: Session
      ensures Mapped(after, PcOf(after, u))
    {
      assert Mapped(s, PcOf(s, u));
      if u == step.t {
        OwnMappedKept(s, step);
      } else {
        OthersStay(s, step, u);
        OtherMappedKept(s, step, u);
      }
    }
  }

  lemma OwnMappedKept(s: State, step: Step)
    requires Inv(s) && Enabled(s, step)
    ensures Mapped(Apply(s, step), PcOf(Apply(s, step), step.t))
  {
    if InMapSection(PcOf(s, step.t)) {
      InsideMappedKept(s, step);
    } else {
      OutsideMappedKept(s, step);
    }
  }

  lemma InsideMappedKept(s: State, step: Step)
    requires Inv(s) && Enabled(s, step) && InMapSection(PcOf(s, step.t))
    ensures Mapped(Apply(s, step), PcOf(Apply(s, step), step.t))
  {
    OwnMapped(s, step.t);
    hide MutexInv, CountInv, MappedInv, KeyInv, OwnerInv;
  }

  lemma OutsideMappedKept(s: State, step: Step)
    requires Inv(s) && Enabled(s, step) && !InMapSection(PcOf(s, step.t))
    ensures Mapped(Apply(s, step), PcOf(Apply(s, step), step.t))
  {
    OwnMapped(s, step.t);
    hide MutexInv, CountInv, MappedInv, KeyInv, OwnerInv;
  }

  /** Another session's lock stays in the map: Clean only removes locks on which no one is counted. */
  lemma OtherMappedKept(s: State, step: Step, u: Session)
    requires Inv(s) && Enabled(s, step) && u != step.t
    ensures Mapped(Apply(s, step), PcOf(s, u))
  {
    assert Mapped(s, PcOf(s, u)) && Mapped(s, PcOf(s, step.t));
    assert InMapSection(PcOf(s, u)) ==> s.mutex == Some(u);
    assert InMapSection(PcOf(s, step.t)) ==> s.mutex == Some(step.t);
    if step.CleanDecide? && PcOf(s, step.t).count == 0 {
      UnusedWhenZero(s, s.locks[PcOf(s, step.t).victim], u);
    }
  }

  /** A counter at zero means that no session is counted on that lock. */
  lemma UnusedWhenZero(s: State, id: LockId, u: Session)
    requires Inv(s) && id < |s.inners| && s.inners[id].count <= 0
    ensures !CountsOn(PcOf(s, u), id)
  {
    assert Counted(s.pcs, id) == {};
    assert u in s.pcs && CountsOn(PcOf(s, u), id) ==> u in Counted(s.pcs, id);
  }

  lemma StepKeepsInv(s: State, step: Step)
    requires Inv(s) && Enabled(s, step)
    ensures Inv(Apply(s, step))
  {
    NeverCrashes(s, step);
    OwnerKept(s, step);
    MutexKept(s, step);
    MapKept(s, step);
    CountKept(s, step);
    MappedKept(s, step);
    KeyKept(s, step);
  }

  lemma InitInv()
    ensures Inv(INIT)
  {
  }

  lemma {:induction false} RunKeepsInv(steps: seq<Step>, s: State)
    requires Run(steps, s)
    ensures Inv(s)
  {
    if steps == [] {
      InitInv();
    } else {
      var last := |steps| - 1;
      var before :| Run(steps[..last], before) && Enabled(before, steps[last]) && s == Apply(before, steps[last]);
      RunKeepsInv(steps[..last], before);
      StepKeepsInv(before, steps[last]);
    }
  }

  // ----- What every interleaving guarantees -----

  /** The session is between the return of Lock(key) and the decrement of the counter in Unlock(key).  Its
      last moments as an owner, between that decrement and the release, do not belong here: see
      OverlapAfterDecrement. */
  ghost predicate InCriticalSection(s: State, t: Session, key: Key) {
    Owns(PcOf(s, t)) && !PcOf(s, t).UnlockDone? && PcOf(s, t).key == key
  }

  lemma MutualExclusion(steps: seq<Step>, s: State, t: Session, u: Session, key: Key)
    requires Run(steps, s)
    requires InCriticalSection(s, t, key) && InCriticalSection(s, u, key)
    ensures t == u
  {
    RunKeepsInv(steps, s);
    assert Mapped(s, PcOf(s, t)) && Mapped(s, PcOf(s, u));
  }

  /** Of two sessions that own locks of one key, at least one has decremented its counter, and only has to
      release a lock that is no longer in the map or that nobody waits for. */
  lemma OverlapOnlyAfterDecrement(steps: seq<Step>, s: State, t: Session, u: Session)
    requires Run(steps, s) && t != u
    requires Owns(PcOf(s, t)) && Owns(PcOf(s, u)) && PcOf(s, t).key == PcOf(s, u).key
    ensures PcOf(s, t).UnlockDone? || PcOf(s, u).UnlockDone?
    ensures PcOf(s, t).id != PcOf(s, u).id
  {
    RunKeepsInv(steps, s);
    if !PcOf(s, t).UnlockDone? && !PcOf(s, u).UnlockDone? {
      MutualExclusion(steps, s, t, u, PcOf(s, t).key);
    }
  }

  ghost predicate Leads(s: State, steps: seq<Step>, final: State)
    decreases |steps|
  {
    if steps == [] then s == final
    else Enabled(s, steps[0]) && Leads(Apply(s, steps[0]), steps[1..], final)
  }

  lemma RunOneMore(steps: seq<Step>, s: State, step: Step)
    requires Run(steps, s) && Enabled(s, step)
    ensures Run(steps + [step], Apply(s, step))
  {
    var more := steps + [step];
    assert more[..|more| - 1] == steps && more[|more| - 1] == step;
    hide Enabled, Apply;
  }

  lemma MoveOne(steps: seq<Step>, more: seq<Step>)
    ensures if more == [] then steps + more == steps else steps + [more[0]] + more[1..] == steps + more
  {
  }

  lemma LeadsSplit(s: State, steps: seq<Step>, final: State)
    requires Leads(s, steps, final)
    ensures if steps == [] then s == final
            else Enabled(s, steps[0]) && Leads(Apply(s, steps[0]), steps[1..], final)
  {
    hide Enabled, Apply;
  }

  /** Enabled steps prolong a run. */
  lemma {:induction false} RunMore(steps: seq<Step>, s: State, more: seq<Step>, final: State)
    requires Run(steps, s) && Leads(s, more, final)
    ensures Run(steps + more, final)
    decreases |more|
  {
    LeadsSplit(s, more, final);
    hide Run, Enabled, Apply, Leads;
    MoveOne(steps, more);
    if more != [] {
      RunOneMore(steps, s, more[0]);
      RunMore(steps + [more[0]], Apply(s, more[0]), more[1..], final);
    }
  }

  lemma LeadsFrom(s: State, step: Step, after: State, rest: seq<Step>, final: State)
    requires Enabled(s, step) && Apply(s, step) == after && Leads(after, rest, final)
    ensures Leads(s, [step] + rest, final)
  {
    var steps := [step] + rest;
    assert steps[0] == step && steps[1..] == rest;
    hide Enabled, Apply;
  }

  lemma SetTwice(pcs: map<Session, Pc>, t: Session, pc: Pc, pc': Pc)
    ensures pcs[t := pc][t := pc'] == pcs[t := pc']
  {
  }

  /** Once it has the new inner lock, a session adds itself, leaves the map mutex and takes the lock. */
  lemma AcquireFresh(s: State, t: Session, k: Key, n: LockId) returns (steps: seq<Step>)
    requires !s.crashed && PcOf(s, t) == LockFound(k, n)
    requires n < |s.inners| && s.inners[n] == Inner(k, 0, None)
    ensures Leads(s, steps, s.(mutex := None, inners := s.inners[n := Inner(k, 1, Some(t))],
                               pcs := s.pcs[t := Holding(k, n)]))
  {
    var counted := s.(inners := s.inners[n := Inner(k, 1, None)]);
    var s1 := At(counted, t, LockAdded(k, n));
    var s2 := At(counted.(mutex := None), t, LockWaiting(k, n));
    var s3 := s.(mutex := None, inners := s.inners[n := Inner(k, 1, Some(t))], pcs := s.pcs[t := Holding(k, n)]);
    SetTwice(s.pcs, t, LockAdded(k, n), LockWaiting(k, n));
    SetTwice(s.pcs, t, LockWaiting(k, n), Holding(k, n));
    assert Leads(s3, [], s3);
    hide Leads;
    assert counted.inners[n := Inner(k, 1, Some(t))] == s3.inners;
    assert Enabled(s2, LockAcquire(t)) && Apply(s2, LockAcquire(t)) == s3;
    assert Enabled(s1, LockLeave(t)) && Apply(s1, LockLeave(t)) == s2;
    assert Enabled(s, LockAdd(t)) && Apply(s, LockAdd(t)) == s1;
    hide Enabled, Apply, At;
    LeadsFrom(s2, LockAcquire(t), s3, [], s3);
    steps := [LockAcquire(t)] + [];
    LeadsFrom(s1, LockLeave(t), s2, steps, s3);
    steps := [LockLeave(t)] + steps;
    LeadsFrom(s, LockAdd(t), s1, steps, s3);
    steps := [LockAdd(t)] + steps;
  }

  /** A session locks a key that has no entry. */
  lemma LockFresh(s: State, t: Session, k: Key) returns (steps: seq<Step>)
    requires !s.crashed && s.mutex.None? && PcOf(s, t).Idle? && k !in s.locks
    ensures var n := |s.inners|;
            Leads(s, steps, s.(locks := s.locks[k := n], inners := s.inners + [Inner(k, 1, Some(t))],
                               pcs := s.pcs[t := Holding(k, n)]))
  {
    var n := |s.inners|;
    var made := s.(locks := s.locks[k := n], inners := s.inners + [Inner(k, 0, None)], mutex := Some(t));
    var s1 := At(s.(mutex := Some(t)), t, LockEntered(k));
    var s2 := At(made, t, LockFound(k, n));
    var final := s.(locks := s.locks[k := n], inners := s.inners + [Inner(k, 1, Some(t))],
                    pcs := s.pcs[t := Holding(k, n)]);
    hide Leads;
    SetTwice(s.pcs, t, LockEntered(k), LockFound(k, n));
    SetTwice(s.pcs, t, LockFound(k, n), Holding(k, n));
    assert made.inners[n := Inner(k, 1, Some(t))] == final.inners;
    assert Enabled(s1, LockLookup(t)) && Apply(s1, LockLookup(t)) == s2;
    StartLock(s, t, k);
    steps := AcquireFresh(s2, t, k, n);
    hide Enabled, Apply;
    LeadsFrom(s1, LockLookup(t), s2, steps, final);
    steps := [LockLookup(t)] + steps;
    hide At;
    LeadsFrom(s, LockStart(t, k), s1, steps, final);
    steps := [LockStart(t, k)] + steps;
  }

  lemma StartLock(s: State, t: Session, k: Key)
    requires !s.crashed && s.mutex.None? && PcOf(s, t).Idle?
    ensures Enabled(s, LockStart(t, k))
    ensures Apply(s, LockStart(t, k)) == At(s.(mutex := Some(t)), t, LockEntered(k))
  {
  }

  /** A session that holds the lock of its key unlocks up to the decrement. */
  lemma UnlockToDecrement(s: State, t: Session, k: Key, n: LockId) returns (steps: seq<Step>)
    requires !s.crashed && s.mutex.None? && PcOf(s, t) == Holding(k, n)
    requires k in s.locks && s.locks[k] == n && n < |s.inners|
    ensures Leads(s, steps, s.(inners := s.inners[n := s.inners[n].(count := s.inners[n].count - 1)],
                               pcs := s.pcs[t := UnlockDone(k, n)]))
  {
    var less := s.inners[n].(count := s.inners[n].count - 1);
    var s1 := At(s.(mutex := Some(t)), t, UnlockEntered(k, n));
    var s2 := At(s.(mutex := Some(t)), t, UnlockFound(k, n, Some(n)));
    var s3 := At(s, t, UnlockLeft(k, n, Some(n)));
    var s4 := s.(inners := s.inners[n := less], pcs := s.pcs[t := UnlockDone(k, n)]);
    SetTwice(s.pcs, t, UnlockEntered(k, n), UnlockFound(k, n, Some(n)));
    SetTwice(s.pcs, t, UnlockFound(k, n, Some(n)), UnlockLeft(k, n, Some(n)));
    SetTwice(s.pcs, t, UnlockLeft(k, n, Some(n)), UnlockDone(k, n));
    assert Leads(s4, [], s4);
    hide Leads;
    assert Enabled(s3, UnlockDecrement(t)) && Apply(s3, UnlockDecrement(t)) == s4;
    assert Enabled(s2, UnlockLeave(t)) && Apply(s2, UnlockLeave(t)) == s3;
    assert Enabled(s1, UnlockLookup(t)) && Apply(s1, UnlockLookup(t)) == s2;
    assert Enabled(s, UnlockStart(t)) && Apply(s, UnlockStart(t)) == s1;
    hide Enabled, Apply, At;
    LeadsFrom(s3, UnlockDecrement(t), s4, [], s4);
    steps := [UnlockDecrement(t)] + [];
    LeadsFrom(s2, UnlockLeave(t), s3, steps, s4);
    steps := [UnlockLeave(t)] + steps;
    LeadsFrom(s1, UnlockLookup(t), s2, steps, s4);
    steps := [UnlockLookup(t)] + steps;
    LeadsFrom(s, UnlockStart(t), s1, steps, s4);
    steps := [UnlockStart(t)] + steps;
  }

  lemma CollectEnds(s: State, t: Session, k: Key, n: LockId)
    requires !s.crashed && s.locks == map[k := n]
    ensures var s2 := At(s.(mutex := Some(t)), t, SweepLoaded(k, 0, {}));
            var s3 := At(s.(mutex := Some(t), locks := map[]), t, Sweeping({}));
            && Enabled(s2, CleanDecide(t)) && Apply(s2, CleanDecide(t)) == s3
            && Enabled(s3, CleanEnd(t))
            && Apply(s3, CleanEnd(t)) == s.(mutex := None, locks := map[], pcs := s.pcs[t := Idle])
  {
    SetTwice(s.pcs, t, SweepLoaded(k, 0, {}), Sweeping({}));
    SetTwice(s.pcs, t, Sweeping({}), Idle);
    assert s.locks - {k} == map[];
  }

  /** A Clean removes the only entry if its counter is zero, whoever still owns the lock. */
  lemma CollectOnly(s: State, t: Session, k: Key, n: LockId) returns (steps: seq<Step>)
    requires !s.crashed && s.mutex.None? && PcOf(s, t).Idle?
    requires s.locks == map[k := n] && n < |s.inners| && s.inners[n].count == 0
    ensures Leads(s, steps, s.(locks := map[], pcs := s.pcs[t := Idle]))
  {
    var s1 := At(s.(mutex := Some(t)), t, Sweeping({k}));
    var s2 := At(s.(mutex := Some(t)), t, SweepLoaded(k, 0, {}));
    var s3 := At(s.(mutex := Some(t), locks := map[]), t, Sweeping({}));
    var s4 := s.(locks := map[], pcs := s.pcs[t := Idle]);
    SetTwice(s.pcs, t, Sweeping({k}), SweepLoaded(k, 0, {}));
    assert Leads(s4, [], s4);
    hide Leads;
    CollectEnds(s, t, k, n);
    assert s.locks.Keys == {k} && {k} - {k} == {};
    assert Enabled(s1, CleanLoad(t, k)) && Apply(s1, CleanLoad(t, k)) == s2;
    assert Enabled(s, CleanStart(t)) && Apply(s, CleanStart(t)) == s1;
    hide Enabled, Apply, At;
    LeadsFrom(s3, CleanEnd(t), s4, [], s4);
    steps := [CleanEnd(t)] + [];
    LeadsFrom(s2, CleanDecide(t), s3, steps, s4);
    steps := [CleanDecide(t)] + steps;
    LeadsFrom(s1, CleanLoad(t, k), s2, steps, s4);
    steps := [CleanLoad(t, k)] + steps;
    LeadsFrom(s, CleanStart(t), s1, steps, s4);
    steps := [CleanStart(t)] + steps;
  }

  /** Exclusion does not extend to the release: for any two sessions, with a third to run Clean, there is a
      run in which one has decremented the counter but not released its lock when the other locks the
      same key. */
  lemma OverlapAfterDecrement(t: Session, u: Session, cleaner: Session, k: Key) returns (steps: seq<Step>, s: State)
    requires t != u && t != cleaner && u != cleaner
    ensures Run(steps, s)
    ensures PcOf(s, t).UnlockDone? && PcOf(s, u).Holding? && PcOf(s, t).key == PcOf(s, u).key == k
  {
    hide Leads, Run;
    s := INIT;
    EmptyRun();
    steps := LockFresh(s, t, k);
    var locked := s.(locks := map[k := 0], inners := [Inner(k, 1, Some(t))], pcs := map[t := Holding(k, 0)]);
    assert s.locks[k := 0] == map[k := 0] && s.inners + [Inner(k, 1, Some(t))] == [Inner(k, 1, Some(t))];
    RunMore([], s, steps, locked);
    var more := UnlockToDecrement(locked, t, k, 0);
    var left := State(None, map[k := 0], [Inner(k, 0, Some(t))], map[t := UnlockDone(k, 0)], false);
    assert locked.pcs[t := UnlockDone(k, 0)] == left.pcs;
    assert locked.inners[0 := locked.inners[0].(count := 0)] == left.inners;
    RunMore([] + steps, locked, more, left);
    steps := [] + steps + more;
    more := CollectOnly(left, cleaner, k, 0);
    var collected := left.(locks := map[], pcs := left.pcs[cleaner := Idle]);
    RunMore(steps, left, more, collected);
    steps := steps + more;
    more := LockFresh(collected, u, k);
    s := collected.(locks := map[k := 1], inners := collected.inners + [Inner(k, 1, Some(u))],
                    pcs := collected.pcs[u := Holding(k, 1)]);
    assert collected.locks[k := 1] == map[k := 1];
    RunMore(steps, collected, more, s);
    steps := steps + more;
  }

  lemma EmptyRun()
    ensures Run([], INIT)
  {
  }

  // ----- Progress -----

  ghost predicate CanMove(s: State, t: Session) {
    exists step: Step :: Enabled(s, step) && step.t == t
  }

  lemma Moves(s: State, step: Step)
    requires Enabled(s, step)
    ensures CanMove(s, step.t)
  {
  }

  /** Whoever is inside the map mutex can go on. */
  lemma MapSectionMoves(s: State, t: Session)
    requires Inv(s) && InMapSection(PcOf(s, t))
    ensures CanMove(s, t)
  {
    OwnMapped(s, t);
    var pc := PcOf(s, t);
    assert Refers(pc) ==> pc.id < |s.inners|;
    hide CanMove, MutexInv, CountInv, MappedInv, OwnerInv;
    match pc {
      case LockEntered(_) => Moves(s, LockLookup(t));
      case LockFound(_, _) => Moves(s, LockAdd(t));
      case LockAdded(_, _) => Moves(s, LockLeave(t));
      case UnlockEntered(_, _) => Moves(s, UnlockLookup(t));
      case UnlockFound(_, _, _) => Moves(s, UnlockLeave(t));
      case Sweeping(todo) =>
        if todo == {} {
          Moves(s, CleanEnd(t));
        } else {
          var victim :| victim in todo;
          assert victim in s.locks && s.locks[victim] < |s.inners|;
          Moves(s, CleanLoad(t, victim));
        }
      case SweepLoaded(_, _, _) => Moves(s, CleanDecide(t));
    }
  }

  /** With the map mutex free, an owner of an inner lock can go on. */
  lemma OwnerMoves(s: State, t: Session)
    requires Inv(s) && s.mutex.None? && Owns(PcOf(s, t))
    ensures CanMove(s, t)
  {
    OwnMapped(s, t);
    var pc := PcOf(s, t);
    assert !InMapSection(pc);
    assert pc.id < |s.inners|;
    hide CanMove, MutexInv, CountInv, MappedInv, OwnerInv;
    match pc {
      case Holding(_, _) => Moves(s, UnlockStart(t));
      case UnlockLeft(_, _, _) => Moves(s, UnlockDecrement(t));
      case UnlockDone(_, _) => Moves(s, UnlockRelease(t));
    }
  }

  /** No deadlock: as long as some session is under way, some session that is under way can take a step.
      A session never waits for another key while it holds one; goroutines that nest the locks of several
      keys can deadlock on each other like on any locks, and are not meant here. */
  lemma SomeoneMoves(steps: seq<Step>, s: State, t: Session) returns (u: Session)
    requires Run(steps, s) && !PcOf(s, t).Idle?
    ensures !PcOf(s, u).Idle? && CanMove(s, u)
  {
    RunKeepsInv(steps, s);
    hide CanMove;
    if s.mutex.Some? {
      u := s.mutex.value;
      assert InMapSection(PcOf(s, u));
      MapSectionMoves(s, u);
    } else {
      u := t;
      assert !InMapSection(PcOf(s, t));
      if PcOf(s, t).LockWaiting? {
        assert Refers(PcOf(s, t));
        var inner := s.inners[PcOf(s, t).id];
        if inner.holder.None? {
          Moves(s, LockAcquire(t));
        } else {
          u := inner.holder.value;
          OwnerMoves(s, u);
        }
      } else {
        OwnerMoves(s, t);
      }
    }
  }

  /** Unlock always finds the very lock its Lock took, and never unlocks an unlocked mutex. */
  lemma UnlockFindsItsLock(steps: seq<Step>, s: State, t: Session)
    requires Run(steps, s)
    ensures !s.crashed
    ensures PcOf(s, t).UnlockFound? || PcOf(s, t).UnlockLeft? ==> PcOf(s, t).found == Some(PcOf(s, t).id)
    ensures !Enabled(s, UnlockMissing(t))
  {
    RunKeepsInv(steps, s);
    assert Mapped(s, PcOf(s, t));
  }

  /** A lock that has left the map while still locked has no one waiting for it or about to. */
  lemma RemovedLockHasNoWaiters(steps: seq<Step>, s: State, id: LockId, t: Session)
    requires Run(steps, s)
    requires id !in s.locks.Values
    ensures Refers(PcOf(s, t)) && PcOf(s, t).id == id ==> PcOf(s, t).UnlockDone?
  {
    RunKeepsInv(steps, s);
    assert Mapped(s, PcOf(s, t));
    assert PcOf(s, t).LockFound? || Counts(PcOf(s, t)) ==> PcOf(s, t).id in s.locks.Values;
  }

  /** A waiting session can take its lock, or one other session owns it, and for the same key: keys
      never block each other. */
  lemma BlockedOnlyBySameKey(steps: seq<Step>, s: State, t: Session)
    requires Run(steps, s)
    requires PcOf(s, t).LockWaiting? && !Enabled(s, LockAcquire(t))
    ensures exists u: Session :: u != t && Owns(PcOf(s, u)) && PcOf(s, u).key == PcOf(s, t).key
  {
    RunKeepsInv(steps, s);
    var u := s.inners[PcOf(s, t).id].holder.value;
    assert Owns(PcOf(s, u)) && PcOf(s, u).key == PcOf(s, t).key;
  }
}
