/** The lock object itself (pkg/keylock/keylock.go): a map of inner locks updated in place.  Each method
    is one atomic section of Lock, Unlock or Clean as one session runs it, and is proved to be the
    machine step of the same name; the session's local variable is passed in and out. */
module KeyLockObject {
  import opened Options
  import opened KeyLockMachine

  class InnerLock {
    ghost const key: Key
    ghost const id: LockId
    ghost var holder: Option<Session>
    var count: int
    var locked: bool

    constructor (ghost key: Key, ghost id: LockId)
      ensures this.key == key && this.id == id
      ensures count == 0 && !locked && holder == None
    {
      this.key := key;
      this.id := id;
      count := 0;
      locked := false;
      holder := None;
    }

    ghost function View(): Inner
      reads this
    {
      Inner(key, count, holder)
    }
  }

  class KeyLock {
    var locks: map<Key, InnerLock>
    var mutex: bool
    /** Every inner lock ever made, the session inside the map mutex, and where each session stands. */
    ghost var made: seq<InnerLock>
    ghost var owner: Option<Session>
    ghost var pcs: map<Session, Pc>

    ghost predicate Shape()
      reads this, made
    {
      && (forall i :: 0 <= i < |made| ==> made[i].id == i && (made[i].locked <==> made[i].holder.Some?))
      && (forall k :: k in locks ==> locks[k] in made)
      && (mutex <==> owner.Some?)
    }

    ghost function Inners(): seq<Inner>
      reads this, made
    {
      seq(|made|, i requires 0 <= i < |made| reads this, made => made[i].View())
    }

    ghost function View(): State
      reads this, made, locks.Values
    {
      State(owner, map k | k in locks :: locks[k].id, Inners(), pcs, false)
    }

    /** The fields fit together, and the state they stand for satisfies the machine's invariant. */
    ghost predicate Valid()
      reads this, made, locks.Values
    {
      Shape() && Inv(View())
    }

    ghost predicate CanStep(step: Step)
      reads this, made, locks.Values
    {
      Valid() && Enabled(View(), step)
    }

    constructor ()
      ensures Valid() && View() == INIT
    {
      locks := map[];
      mutex := false;
      made := [];
      owner := None;
      pcs := map[];
      new;
      assert Inners() == [];
      InitInv();
    }

    method LockStart(ghost t: Session, key: Key)
      requires CanStep(Step.LockStart(t, key))
      modifies this`mutex, this`owner, this`pcs
      ensures Valid() && View() == Apply(old(View()), Step.LockStart(t, key))
    {
      hide MutexInv, CountInv, MappedInv, KeyInv, OwnerInv;
      mutex := true;
      owner := Some(t);
      pcs := pcs[t := LockEntered(key)];
      assert Inners() == old(Inners());
      StepKeepsInv(old(View()), Step.LockStart(t, key));
    }

    /** Make an inner lock and file it under its key. */
    method Insert(key: Key) returns (keyLock: InnerLock)
      requires Shape() && key !in locks
      modifies this`locks, this`made
      ensures Shape() && made == old(made) + [keyLock]
      ensures Inners() == old(Inners()) + [Inner(key, 0, None)]
      ensures keyLock.id == |old(made)| && locks == old(locks)[key := keyLock]
    {
      keyLock := new InnerLock(key, |made|);
      assert Inners() == old(Inners());
      locks := locks[key := keyLock];
      made := made + [keyLock];
      assert Inners() == old(Inners()) + [keyLock.View()];
    }

    /** The inner lock filed under the key, made now if there is none. */
    method FindOrInsert(key: Key) returns (keyLock: InnerLock)
      requires Shape()
      modifies this`locks, this`made
      ensures Shape() && key in locks && locks[key] == keyLock && keyLock in made
      ensures if key in old(locks) then
                keyLock == old(locks)[key] && View() == old(View())
              else
                keyLock.id == |old(View()).inners|
                && View() == old(View()).(inners := old(View()).inners + [Inner(key, 0, None)],
                                          locks := old(View()).locks[key := keyLock.id])
    {
      if key in locks {
        keyLock := locks[key];
      } else {
        keyLock := Insert(key);
        assert View().locks == old(View()).locks[key := keyLock.id];
      }
    }

    method LockLookup(ghost t: Session, key: Key) returns (keyLock: InnerLock)
      requires CanStep(Step.LockLookup(t)) && PcOf(View(), t) == LockEntered(key)
      modifies this
      ensures Valid() && View() == Apply(old(View()), Step.LockLookup(t))
      ensures keyLock in made && PcOf(View(), t) == LockFound(key, keyLock.id)
      ensures key in locks && locks[key] == keyLock && (key in old(locks) ==> keyLock == old(locks)[key])
    {
      hide Inv, Apply;
      LookupStep(View(), t, key);
      keyLock := FindOrInsert(key);
      ghost var found := View();
      pcs := pcs[t := Pc.LockFound(key, keyLock.id)];
      assert View() == found.(pcs := pcs);
      StepKeepsInv(old(View()), Step.LockLookup(t));
    }

    /** The counter is an atomic variable of the inner lock; the map mutex is held. */
    method LockAdd(ghost t: Session, keyLock: InnerLock)
      requires CanStep(Step.LockAdd(t)) && keyLock in made && PcOf(View(), t).id == keyLock.id
      modifies this`pcs, keyLock`count
      ensures Valid() && View() == Apply(old(View()), Step.LockAdd(t))
    {
      hide MutexInv, CountInv, MappedInv, KeyInv, OwnerInv;
      ghost var key := PcOf(View(), t).key;
      keyLock.count := keyLock.count + 1;
      pcs := pcs[t := Pc.LockAdded(key, keyLock.id)];
      assert Inners() == old(Inners())[keyLock.id := keyLock.View()];
      StepKeepsInv(old(View()), Step.LockAdd(t));
    }

    method LockLeave(ghost t: Session)
      requires CanStep(Step.LockLeave(t))
      modifies this`mutex, this`owner, this`pcs
      ensures Valid() && View() == Apply(old(View()), Step.LockLeave(t))
    {
      hide MutexInv, CountInv, MappedInv, KeyInv, OwnerInv;
      ghost var pc := PcOf(View(), t);
      mutex := false;
      owner := None;
      pcs := pcs[t := LockWaiting(pc.key, pc.id)];
      assert Inners() == old(Inners());
      StepKeepsInv(old(View()), Step.LockLeave(t));
    }

    /** The blocking part of Lock, once the inner mutex is free. */
    method LockAcquire(ghost t: Session, keyLock: InnerLock)
      requires CanStep(Step.LockAcquire(t)) && keyLock in made && PcOf(View(), t).id == keyLock.id
      modifies this`pcs, keyLock`locked, keyLock`holder
      ensures Valid() && View() == Apply(old(View()), Step.LockAcquire(t))
      ensures !old(keyLock.locked) && keyLock.locked
    {
      hide MutexInv, CountInv, MappedInv, KeyInv, OwnerInv;
      ghost var key := PcOf(View(), t).key;
      keyLock.locked := true;
      keyLock.holder := Some(t);
      pcs := pcs[t := Holding(key, keyLock.id)];
      assert Inners() == old(Inners())[keyLock.id := keyLock.View()];
      StepKeepsInv(old(View()), Step.LockAcquire(t));
    }

    method UnlockStart(ghost t: Session)
      requires CanStep(Step.UnlockStart(t))
      modifies this`mutex, this`owner, this`pcs
      ensures Valid() && View() == Apply(old(View()), Step.UnlockStart(t))
    {
      hide MutexInv, CountInv, MappedInv, KeyInv, OwnerInv;
      ghost var pc := PcOf(View(), t);
      mutex := true;
      owner := Some(t);
      pcs := pcs[t := UnlockEntered(pc.key, pc.id)];
      assert Inners() == old(Inners());
      StepKeepsInv(old(View()), Step.UnlockStart(t));
    }

    /** The lookup succeeds, and with the lock this session holds. */
    method UnlockLookup(ghost t: Session, key: Key) returns (keyLock: InnerLock)
      requires CanStep(Step.UnlockLookup(t)) && PcOf(View(), t).key == key
      modifies this`pcs
      ensures Valid() && View() == Apply(old(View()), Step.UnlockLookup(t))
      ensures keyLock in made && keyLock.holder == Some(t) && PcOf(View(), t).found == Some(keyLock.id)
    {
      ghost var pc := PcOf(View(), t);
      assert Mapped(View(), pc);
      keyLock := locks[key];
      pcs := pcs[t := Pc.UnlockFound(key, pc.id, Some(keyLock.id))];
      assert Inners() == old(Inners());
      assert Inners()[keyLock.id] == keyLock.View();
      StepKeepsInv(old(View()), Step.UnlockLookup(t));
    }

    method UnlockLeave(ghost t: Session)
      requires CanStep(Step.UnlockLeave(t))
      modifies this`mutex, this`owner, this`pcs
      ensures Valid() && View() == Apply(old(View()), Step.UnlockLeave(t))
    {
      hide MutexInv, CountInv, MappedInv, KeyInv, OwnerInv;
      ghost var pc := PcOf(View(), t);
      mutex := false;
      owner := None;
      pcs := pcs[t := UnlockLeft(pc.key, pc.id, pc.found)];
      assert Inners() == old(Inners());
      StepKeepsInv(old(View()), Step.UnlockLeave(t));
    }

    /** done() runs outside the map mutex, before the inner lock is released. */
    method UnlockDecrement(ghost t: Session, keyLock: InnerLock)
      requires CanStep(Step.UnlockDecrement(t)) && keyLock in made && PcOf(View(), t).found == Some(keyLock.id)
      modifies this`pcs, keyLock`count
      ensures Valid() && View() == Apply(old(View()), Step.UnlockDecrement(t))
    {
      hide MutexInv, CountInv, MappedInv, KeyInv, OwnerInv;
      ghost var key := PcOf(View(), t).key;
      keyLock.count := keyLock.count - 1;
      pcs := pcs[t := UnlockDone(key, keyLock.id)];
      assert Inners() == old(Inners())[keyLock.id := keyLock.View()];
      StepKeepsInv(old(View()), Step.UnlockDecrement(t));
    }

    /** The inner lock is locked here, so the release cannot abort the program. */
    method UnlockRelease(ghost t: Session, keyLock: InnerLock)
      requires CanStep(Step.UnlockRelease(t)) && keyLock in made && PcOf(View(), t).id == keyLock.id
      modifies this`pcs, keyLock`locked, keyLock`holder
      ensures Valid() && View() == Apply(old(View()), Step.UnlockRelease(t))
      ensures old(keyLock.locked) && !keyLock.locked
    {
      assert Inners()[keyLock.id] == keyLock.View();
      assert View().inners[PcOf(View(), t).id].holder == Some(t);
      keyLock.locked := false;
      keyLock.holder := None;
      pcs := pcs[t := Idle];
      assert Inners() == old(Inners())[keyLock.id := keyLock.View()];
      StepKeepsInv(old(View()), Step.UnlockRelease(t));
    }

    method CleanStart(ghost t: Session) returns (todo: set<Key>)
      requires CanStep(Step.CleanStart(t))
      modifies this`mutex, this`owner, this`pcs
      ensures Valid() && View() == Apply(old(View()), Step.CleanStart(t))
      ensures todo == locks.Keys
    {
      hide MutexInv, CountInv, MappedInv, KeyInv, OwnerInv;
      mutex := true;
      owner := Some(t);
      todo := locks.Keys;
      assert View().locks.Keys == todo;
      pcs := pcs[t := Sweeping(todo)];
      assert Inners() == old(Inners());
      StepKeepsInv(old(View()), Step.CleanStart(t));
    }

    method CleanLoad(ghost t: Session, victim: Key) returns (count: int)
      requires CanStep(Step.CleanLoad(t, victim))
      modifies this`pcs
      ensures Valid() && View() == Apply(old(View()), Step.CleanLoad(t, victim))
      ensures PcOf(View(), t).SweepLoaded? && PcOf(View(), t).count == count
    {
      hide MutexInv, CountInv, MappedInv, KeyInv, OwnerInv;
      ghost var todo := PcOf(View(), t).todo;
      count := locks[victim].count;
      assert Inners()[locks[victim].id] == locks[victim].View();
      pcs := pcs[t := SweepLoaded(victim, count, todo - {victim})];
      assert Inners() == old(Inners());
      StepKeepsInv(old(View()), Step.CleanLoad(t, victim));
    }

    method CleanDecide(ghost t: Session, victim: Key, count: int)
      requires CanStep(Step.CleanDecide(t))
      requires PcOf(View(), t).victim == victim && PcOf(View(), t).count == count
      modifies this`locks, this`pcs
      ensures Valid() && View() == Apply(old(View()), Step.CleanDecide(t))
    {
      hide MutexInv, CountInv, MappedInv, KeyInv, OwnerInv;
      ghost var todo := PcOf(View(), t).todo;
      if count == 0 {
        locks := locks - {victim};
      }
      pcs := pcs[t := Sweeping(todo)];
      assert Inners() == old(Inners());
      assert View().locks == if count == 0 then old(View()).locks - {victim} else old(View()).locks;
      StepKeepsInv(old(View()), Step.CleanDecide(t));
    }

    method CleanEnd(ghost t: Session)
      requires CanStep(Step.CleanEnd(t))
      modifies this`mutex, this`owner, this`pcs
      ensures Valid() && View() == Apply(old(View()), Step.CleanEnd(t))
    {
      hide MutexInv, CountInv, MappedInv, KeyInv, OwnerInv;
      mutex := false;
      owner := None;
      pcs := pcs[t := Idle];
      assert Inners() == old(Inners());
      StepKeepsInv(old(View()), Step.CleanEnd(t));
    }
  }

  /** The lookup step of the machine. */
  lemma LookupStep(s: State, t: Session, key: Key)
    requires Enabled(s, Step.LockLookup(t)) && PcOf(s, t) == LockEntered(key)
    ensures Apply(s, Step.LockLookup(t))
         == if key in s.locks then s.(pcs := s.pcs[t := Pc.LockFound(key, s.locks[key])])
            else s.(inners := s.inners + [Inner(key, 0, None)], locks := s.locks[key := |s.inners|],
                    pcs := s.pcs[t := Pc.LockFound(key, |s.inners|)])
  {
  }
}
