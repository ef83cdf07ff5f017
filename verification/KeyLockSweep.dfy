/** Garbage collection of the per-key lock (pkg/keylock/keylock.go): what a Clean removes, on an idle map
    and among sessions that lock and unlock. */
module KeyLockSweep {
  import opened Options
  import opened KeyLockMachine

  ghost predicate AllIdleBut(s: State, t: Session) {
    forall u: Session :: u != t ==> PcOf(s, u).Idle?
  }

  /** With everyone else idle a sweep removes the entry it visits. */
  lemma SweepOne(s: State, t: Session, victim: Key) returns (swept: State)
    requires Inv(s) && AllIdleBut(s, t) && PcOf(s, t).Sweeping? && victim in PcOf(s, t).todo
    ensures Inv(swept) && AllIdleBut(swept, t) && PcOf(swept, t) == Sweeping(PcOf(s, t).todo - {victim})
    ensures swept.locks == s.locks - {victim}
    ensures Enabled(s, CleanLoad(t, victim)) && Enabled(Apply(s, CleanLoad(t, victim)), CleanDecide(t))
    ensures swept == Apply(Apply(s, CleanLoad(t, victim)), CleanDecide(t))
  {
    assert Mapped(s, PcOf(s, t));
    var id := s.locks[victim];
    UncountedWhenIdle(s, t, id);
    var loaded := Apply(s, CleanLoad(t, victim));
    StepKeepsInv(s, CleanLoad(t, victim));
    swept := Apply(loaded, CleanDecide(t));
    StepKeepsInv(loaded, CleanDecide(t));
    forall u: Session | u != t
      ensures PcOf(swept, u).Idle?
    {
      OthersStay(s, CleanLoad(t, victim), u);
      OthersStay(loaded, CleanDecide(t), u);
    }
  }

  /** With everyone else idle a sweep removes all it has left to visit. */
  lemma {:induction false} SweepRemoves(s: State, t: Session) returns (steps: seq<Step>, final: State)
    requires Inv(s) && AllIdleBut(s, t) && PcOf(s, t).Sweeping?
    ensures Leads(s, steps, final)
    ensures final.locks == s.locks - PcOf(s, t).todo && final.mutex.None?
    decreases PcOf(s, t).todo
  {
    hide Inv, Enabled, Apply;
    if PcOf(s, t).todo == {} {
      steps, final := SweepEnd(s, t);
    } else {
      var victim :| victim in PcOf(s, t).todo;
      var swept := SweepOne(s, t, victim);
      var rest;
      rest, final := SweepRemoves(swept, t);
      steps := [CleanLoad(t, victim), CleanDecide(t)] + rest;
      LeadsTwo(s, steps, final);
    }
  }

  lemma SweepEnd(s: State, t: Session) returns (steps: seq<Step>, final: State)
    requires Inv(s) && PcOf(s, t) == Sweeping({})
    ensures Leads(s, steps, final) && final.locks == s.locks && final.mutex.None?
  {
    hide Inv;
    assert !s.crashed by {
      NotCrashed(s);
    }
    steps, final := [CleanEnd(t)], Apply(s, CleanEnd(t));
    assert Leads(final, steps[1..], final);
  }

  lemma NotCrashed(s: State)
    requires Inv(s)
    ensures !s.crashed
  {
  }

  lemma LeadsTwo(s: State, steps: seq<Step>, final: State)
    requires |steps| >= 2 && Enabled(s, steps[0]) && Enabled(Apply(s, steps[0]), steps[1])
    requires Leads(Apply(Apply(s, steps[0]), steps[1]), steps[2..], final)
    ensures Leads(s, steps, final)
  {
  }

  ghost predicate SweepStep(step: Step, t: Session) {
    step.t == t && (step.CleanLoad? || step.CleanDecide? || step.CleanEnd?)
  }

  /** Everyone else is idle, and the sweep has left nothing in the map that it has visited. */
  ghost predicate Clearing(s: State, t: Session) {
    && AllIdleBut(s, t)
    && match PcOf(s, t)
       case Sweeping(todo) => s.locks.Keys <= todo
       case SweepLoaded(victim, count, todo) => count == 0 && s.locks.Keys <= todo + {victim}
       case _ => s.locks == map[]
  }

  lemma UncountedWhenIdle(s: State, t: Session, id: LockId)
    requires Inv(s) && AllIdleBut(s, t) && PcOf(s, t).Sweeping? && id < |s.inners|
    ensures s.inners[id].count == 0
  {
    assert Counted(s.pcs, id) == {} by {
      assert forall u :: u in s.pcs ==> u == t || PcOf(s, u).Idle?;
    }
  }

  lemma ClearingKept(s: State, step: Step, t: Session)
    requires Inv(s) && Enabled(s, step) && SweepStep(step, t) && Clearing(s, t)
    ensures Clearing(Apply(s, step), t)
  {
    forall u: Session | u != t
      ensures PcOf(Apply(s, step), u).Idle?
    {
      OthersStay(s, step, u);
    }
    if step.CleanLoad? {
      UncountedWhenIdle(s, t, s.locks[step.victim]);
    }
    hide Inv;
  }

  /** Every sweep that runs to its end while the others stay idle empties the map, in whatever order it
      visits the entries. */
  lemma {:induction false} EverySweepEmpties(s: State, sweep: seq<Step>, final: State, t: Session)
    requires Inv(s) && Clearing(s, t) && Leads(s, sweep, final)
    requires forall i :: 0 <= i < |sweep| ==> SweepStep(sweep[i], t)
    requires PcOf(final, t).Idle?
    ensures final.locks == map[]
    decreases |sweep|
  {
    if sweep != [] {
      ClearingKept(s, sweep[0], t);
      StepKeepsInv(s, sweep[0]);
      EverySweepEmpties(Apply(s, sweep[0]), sweep[1..], final, t);
    }
  }

  // ----- A sweep among other sessions -----

  ghost predicate InSweep(s: State, t: Session) {
    PcOf(s, t).Sweeping? || PcOf(s, t).SweepLoaded?
  }

  /** What the sweep is about to remove, and what it still has to visit. */
  ghost function Pending(s: State, t: Session): set<Key> {
    var pc := PcOf(s, t);
    if pc.SweepLoaded? && pc.count == 0 then {pc.victim} else {}
  }

  ghost function ToVisit(s: State, t: Session): set<Key> {
    var pc := PcOf(s, t);
    if pc.Sweeping? || pc.SweepLoaded? then pc.todo else {}
  }

  ghost predicate LoadsZero(s: State, step: Step, t: Session)
    requires Enabled(s, step)
  {
    step.CleanLoad? && step.t == t && s.inners[s.locks[step.victim]].count == 0
  }

  /** The keys whose counter the sweep of t found at zero. */
  ghost function Zeroed(s: State, steps: seq<Step>, final: State, t: Session): set<Key>
    requires Leads(s, steps, final)
    decreases |steps|
  {
    if steps == [] then {}
    else
      (if LoadsZero(s, steps[0], t) then {steps[0].victim} else {}) + Zeroed(Apply(s, steps[0]), steps[1..], final, t)
  }

  /** Nobody else changes the map during a sweep, and the sweep removes what it found at zero. */
  lemma SweepEffect(s: State, step: Step, t: Session)
    requires Inv(s) && Enabled(s, step) && InSweep(s, t) && step != CleanEnd(t)
    ensures var after := Apply(s, step);
            && InSweep(after, t)
            && after.locks == s.locks - (if step == CleanDecide(t) then Pending(s, t) else {})
            && Pending(after, t)
               == (if LoadsZero(s, step, t) then {step.victim}
                   else if step == CleanDecide(t) then {}
                   else Pending(s, t))
            && ToVisit(after, t) == ToVisit(s, t) - (if step.CleanLoad? && step.t == t then {step.victim} else {})
            && (LoadsZero(s, step, t) ==> Pending(s, t) == {})
  {
    hide MapInv, CountInv, MappedInv, KeyInv, OwnerInv;
    assert InMapSection(PcOf(s, t)) && s.mutex == Some(t);
    assert InMapSection(PcOf(s, step.t)) <==> s.mutex == Some(step.t);
    if step.t != t {
      OthersStay(s, step, t);
    }
  }

  /** A counter at zero stays there during a sweep. */
  lemma ZeroStays(s: State, step: Step, t: Session, k: Key)
    requires Inv(s) && Enabled(s, step) && InSweep(s, t)
    requires k in s.locks && s.locks[k] < |s.inners| && s.inners[s.locks[k]].count == 0
    ensures var after := Apply(s, step);
            s.locks[k] < |after.inners| && after.inners[s.locks[k]].count == 0
  {
    var id := s.locks[k];
    StepKeepsInv(s, step);
    CountIsSize(Apply(s, step), id);
    hide MapInv, CountInv, MappedInv, KeyInv, OwnerInv, Counted;
    assert InMapSection(PcOf(s, t)) && s.mutex == Some(t);
    assert InMapSection(PcOf(s, step.t)) <==> s.mutex == Some(step.t);
  }

  lemma CountIsSize(s: State, id: LockId)
    requires Inv(s)
    ensures id < |s.inners| ==> s.inners[id].count >= 0
  {
  }

  /** The rest of a sweep, up to its end. */
  ghost predicate RestOfSweep(s: State, steps: seq<Step>, final: State, t: Session) {
    && Leads(s, steps, final)
    && |steps| > 0 && steps[|steps| - 1] == CleanEnd(t)
    && forall i :: 0 <= i < |steps| - 1 ==> steps[i] != CleanEnd(t)
  }

  lemma RestAfterStep(s: State, steps: seq<Step>, final: State, t: Session)
    requires RestOfSweep(s, steps, final, t)
    ensures Enabled(s, steps[0])
    ensures if |steps| == 1 then steps[0] == CleanEnd(t) && final == Apply(s, steps[0])
            else steps[0] != CleanEnd(t) && RestOfSweep(Apply(s, steps[0]), steps[1..], final, t)
    ensures Zeroed(s, steps, final, t)
         == (if LoadsZero(s, steps[0], t) then {steps[0].victim} else {})
            + Zeroed(Apply(s, steps[0]), steps[1..], final, t)
    ensures |steps| == 1 ==> Zeroed(s, steps, final, t) == {}
  {
    hide Enabled, Apply;
    LeadsSplit(s, steps, final);
    if |steps| == 1 {
      LeadsSplit(Apply(s, steps[0]), steps[1..], final);
    }
  }

  lemma {:induction false} SweepRemovesZeroed(s: State, steps: seq<Step>, final: State, t: Session)
    requires Inv(s) && InSweep(s, t) && RestOfSweep(s, steps, final, t)
    ensures final.locks == s.locks - Pending(s, t) - Zeroed(s, steps, final, t)
    decreases |steps|
  {
    hide Inv, Enabled, Apply, InSweep, Pending, ToVisit, Zeroed, Leads;
    RestAfterStep(s, steps, final, t);
    if |steps| == 1 {
      EndChangesNothing(s, t);
      Minus(s.locks, {}, {}, {}, Pending(s, t), Zeroed(s, steps, final, t));
    } else {
      StepKeepsInv(s, steps[0]);
      SweepEffect(s, steps[0], t);
      var after := Apply(s, steps[0]);
      SweepRemovesZeroed(after, steps[1..], final, t);
      var removed := if steps[0] == CleanDecide(t) then Pending(s, t) else {};
      var found := if LoadsZero(s, steps[0], t) then {steps[0].victim} else {};
      SameSets(removed, Pending(after, t), Zeroed(after, steps[1..], final, t), Pending(s, t), found);
      Minus(s.locks, removed, Pending(after, t), Zeroed(after, steps[1..], final, t), Pending(s, t),
            Zeroed(s, steps, final, t));
    }
  }

  lemma SameSets(a: set<Key>, b: set<Key>, rest: set<Key>, x: set<Key>, found: set<Key>)
    requires a + b == x + found
    ensures a + b + rest == x + (found + rest)
  {
  }

  lemma Minus(m: map<Key, LockId>, a: set<Key>, b: set<Key>, c: set<Key>, x: set<Key>, y: set<Key>)
    requires a + b + c == x + y
    ensures m - a - b - c == m - x - y && m - {} - {} - {} == m
  {
    assert forall k :: k in m - a - b - c <==> k in m && k !in a + b + c;
    assert forall k :: k in m - x - y <==> k in m && k !in x + y;
  }

  lemma EndChangesNothing(s: State, t: Session)
    requires Enabled(s, CleanEnd(t))
    ensures Apply(s, CleanEnd(t)).locks == s.locks && Pending(s, t) == {} && ToVisit(s, t) == {}
  {
  }

  ghost predicate AtZero(s: State, k: Key) {
    k in s.locks && s.locks[k] < |s.inners| && s.inners[s.locks[k]].count == 0
  }

  lemma {:induction false} ZeroIsFound(s: State, steps: seq<Step>, final: State, t: Session, k: Key)
    requires Inv(s) && InSweep(s, t) && RestOfSweep(s, steps, final, t)
    requires AtZero(s, k) && k in ToVisit(s, t)
    ensures k in Zeroed(s, steps, final, t)
    decreases |steps|
  {
    RestAfterStep(s, steps, final, t);
    if |steps| == 1 {
      EndChangesNothing(s, t);
    } else {
      NotPending(s, t, k);
      VisitedAtZero(s, steps[0], t, k);
      StepKeepsInv(s, steps[0]);
      SweepEffect(s, steps[0], t);
      ZeroStays(s, steps[0], t, k);
      hide Inv, Enabled, Apply, InSweep, Pending, ToVisit, LoadsZero, Zeroed, RestOfSweep;
      if k in ToVisit(Apply(s, steps[0]), t) {
        ZeroIsFound(Apply(s, steps[0]), steps[1..], final, t, k);
      }
    }
  }

  lemma NotPending(s: State, t: Session, k: Key)
    requires Inv(s) && k in ToVisit(s, t)
    ensures k !in Pending(s, t)
  {
    OwnMapped(s, t);
  }

  lemma VisitedAtZero(s: State, step: Step, t: Session, k: Key)
    requires Enabled(s, step) && AtZero(s, k)
    ensures step.CleanLoad? && step.t == t && step.victim == k ==> LoadsZero(s, step, t)
  {
  }

  /** A Clean from its start to its end, with any steps of other sessions in between. */
  ghost predicate WholeSweep(s: State, sweep: seq<Step>, final: State, t: Session) {
    && |sweep| >= 2 && sweep[0] == CleanStart(t) && Leads(s, sweep, final)
    && sweep[|sweep| - 1] == CleanEnd(t) && forall i :: 0 <= i < |sweep| - 1 ==> sweep[i] != CleanEnd(t)
  }

  /** Among any other sessions a Clean removes exactly the entries whose counter it found at zero. */
  lemma CleanRemovesZeroed(steps: seq<Step>, s: State, t: Session, sweep: seq<Step>, final: State)
    requires Run(steps, s) && WholeSweep(s, sweep, final, t)
    ensures final.locks == s.locks - Zeroed(s, sweep, final, t)
  {
    hide Inv, Run, Leads, Enabled, Apply, InSweep, Pending, ToVisit, Zeroed;
    RunKeepsInv(steps, s);
    SweepStarts(s, t, sweep, final);
    var started := Apply(s, sweep[0]);
    StepKeepsInv(s, sweep[0]);
    SweepRemovesZeroed(started, sweep[1..], final, t);
    Minus(s.locks, {}, {}, Zeroed(started, sweep[1..], final, t), {}, Zeroed(started, sweep[1..], final, t));
  }

  /** Among these is every entry whose counter was at zero when the Clean started, however busy the other
      keys are. */
  lemma CleanCollects(steps: seq<Step>, s: State, t: Session, sweep: seq<Step>, final: State, k: Key)
    requires Run(steps, s) && WholeSweep(s, sweep, final, t) && AtZero(s, k)
    ensures k in Zeroed(s, sweep, final, t) && k !in final.locks
  {
    hide Inv, Run, Leads, Enabled, Apply, InSweep, Pending, ToVisit, Zeroed;
    CleanRemovesZeroed(steps, s, t, sweep, final);
    RunKeepsInv(steps, s);
    SweepStarts(s, t, sweep, final);
    var started := Apply(s, sweep[0]);
    StepKeepsInv(s, sweep[0]);
    ZeroAtStart(s, started, k);
    ZeroIsFound(started, sweep[1..], final, t, k);
  }

  lemma ZeroAtStart(s: State, started: State, k: Key)
    requires AtZero(s, k) && started.locks == s.locks && started.inners == s.inners
    ensures AtZero(started, k) && k in s.locks.Keys
  {
  }

  lemma SweepStarts(s: State, t: Session, sweep: seq<Step>, final: State)
    requires WholeSweep(s, sweep, final, t)
    ensures Enabled(s, sweep[0])
    ensures var started := Apply(s, sweep[0]);
            && InSweep(started, t) && Pending(started, t) == {} && ToVisit(started, t) == s.locks.Keys
            && started.locks == s.locks && started.inners == s.inners
            && RestOfSweep(started, sweep[1..], final, t)
            && Zeroed(s, sweep, final, t) == Zeroed(started, sweep[1..], final, t)
  {
    LeadsSplit(s, sweep, final);
    assert {} + Zeroed(Apply(s, sweep[0]), sweep[1..], final, t) == Zeroed(Apply(s, sweep[0]), sweep[1..], final, t);
  }

  /** A Clean that runs while every Lock has been matched by its Unlock empties the map. */
  lemma CleanEmptiesMap(steps: seq<Step>, s: State, t: Session, sweep: seq<Step>, final: State)
    requires Run(steps, s) && PcOf(s, t).Idle? && AllIdleBut(s, t)
    requires |sweep| > 0 && sweep[0] == CleanStart(t) && Leads(s, sweep, final) && PcOf(final, t).Idle?
    requires forall i :: 0 < i < |sweep| ==> SweepStep(sweep[i], t)
    ensures final.locks == map[]
  {
    RunKeepsInv(steps, s);
    var started := Apply(s, sweep[0]);
    StepKeepsInv(s, sweep[0]);
    assert Clearing(started, t);
    EverySweepEmpties(started, sweep[1..], final, t);
  }

  /** Such a Clean can always run. */
  lemma CleanEmptiesIdleMap(steps: seq<Step>, s: State, t: Session) returns (sweep: seq<Step>, final: State)
    requires Run(steps, s) && PcOf(s, t).Idle? && AllIdleBut(s, t)
    ensures Leads(s, sweep, final) && final.locks == map[] && final.mutex.None?
  {
    RunKeepsInv(steps, s);
    forall u: Session
      ensures s.mutex != Some(u)
    {
      assert !InMapSection(PcOf(s, u));
    }
    assert s.mutex.None?;
    var started := Apply(s, CleanStart(t));
    StepKeepsInv(s, CleanStart(t));
    sweep, final := SweepRemoves(started, t);
    sweep := [CleanStart(t)] + sweep;
    assert sweep[0] == CleanStart(t) && Leads(started, sweep[1..], final);
  }
}
