/** The blocking queue (pkg/pool/queue.go): a mutex and a condition variable around a buffer.  All shared
    state is touched inside the mutex only, so one critical section is one step.  Going to sleep adds the
    thread to the condition's waiters before the mutex is released, and a woken thread is `notified`
    until it gets the mutex back and re-checks its loop condition. */
module QueueMachine {
  import opened Options

  type Thread = nat

  datatype Removal<T> = Removal(taker: Thread, item: T)

  datatype State<T> = State(
    buffer: seq<T>,
    closed: bool,
    sleeping: set<Thread>,
    notified: set<Thread>,
    accepted: seq<T>,
    removed: seq<Removal<T>>)

  /** Signal wakes one waiter if there is one, and any waiter may be the one. */
  datatype Step<T> =
    | Push(item: T, wake: Option<Thread>)
    | Close
    | PopEnter(t: Thread)
    | PopResume(t: Thread)
    | TryPop(t: Thread)

  /** What a call returns when its step completes it: nothing yet, no value, or an item. */
  datatype Result<T> = Pending | NoValue | Item(item: T)

  ghost function Init<T>(): State<T> {
    State([], false, {}, {}, [], [])
  }

  ghost predicate Enabled<T>(s: State<T>, step: Step<T>) {
    match step
    case Push(_, wake) =>
      if s.closed || s.sleeping == {} then wake.None? else wake.Some? && wake.value in s.sleeping
    case Close => true
    case PopEnter(t) => t !in s.sleeping && t !in s.notified
    case PopResume(t) => t in s.notified
    case TryPop(t) => t !in s.sleeping && t !in s.notified
  }

  ghost function TakeFirst<T>(s: State<T>, t: Thread): State<T>
    requires |s.buffer| > 0
  {
    s.(buffer := s.buffer[1..], removed := s.removed + [Removal(t, s.buffer[0])])
  }

  /** The loop of Pop from the check on, with the mutex held. */
  ghost function PopBody<T>(s: State<T>, t: Thread): (State<T>, Result<T>) {
    if |s.buffer| == 0 && !s.closed then (s.(sleeping := s.sleeping + {t}), Pending)
    else if s.closed then (s, NoValue)
    else (TakeFirst(s, t), Item(s.buffer[0]))
  }

  ghost function Apply<T>(s: State<T>, step: Step<T>): (State<T>, Result<T>)
    requires Enabled(s, step)
  {
    match step
    case Push(item, wake) =>
      if s.closed then (s, NoValue)
      else
        var woken := if wake.Some? then {wake.value} else {};
        (s.(buffer := s.buffer + [item], accepted := s.accepted + [item],
            sleeping := s.sleeping - woken, notified := s.notified + woken), NoValue)
    case Close =>
      if s.closed then (s, NoValue)
      else (s.(closed := true, sleeping := {}, notified := s.notified + s.sleeping), NoValue)
    case PopEnter(t) => PopBody(s, t)
    case PopResume(t) => PopBody(s.(notified := s.notified - {t}), t)
    case TryPop(t) =>
      if |s.buffer| > 0 then (TakeFirst(s, t), Item(s.buffer[0])) else (s, NoValue)
  }

  ghost predicate Run<T(!new)>(steps: seq<Step<T>>, s: State<T>) {
    if steps == [] then s == Init()
    else
      var last := |steps| - 1;
      exists before ::
        Run(steps[..last], before) && Enabled(before, steps[last]) && s == Apply(before, steps[last]).0
  }

  function Items<T>(removed: seq<Removal<T>>): (items: seq<T>)
    ensures |items| == |removed| && forall i :: 0 <= i < |items| ==> items[i] == removed[i].item
  {
    seq(|removed|, i requires 0 <= i < |removed| => removed[i].item)
  }

  // ----- The invariant -----

  /** While the queue is open and someone sleeps, every buffered item has a consumer on its way. */
  ghost predicate WakeupsSuffice<T>(s: State<T>) {
    !s.closed && s.sleeping != {} ==> |s.buffer| <= |s.notified|
  }

  ghost predicate Inv<T>(s: State<T>) {
    && s.sleeping !! s.notified
    && (s.closed ==> s.sleeping == {})
    && WakeupsSuffice(s)
    && s.accepted == Items(s.removed) + s.buffer
  }

  lemma TakeKeepsOrder<T>(s: State<T>, t: Thread)
    requires |s.buffer| > 0 && s.accepted == Items(s.removed) + s.buffer
    ensures var after := TakeFirst(s, t); after.accepted == Items(after.removed) + after.buffer
  {
  }

  lemma StepKeepsInv<T>(s: State<T>, step: Step<T>)
    requires Inv(s) && Enabled(s, step)
    ensures Inv(Apply(s, step).0)
  {
    match step {
      case Push(item, wake) =>
        assert s.accepted + [item] == Items(s.removed) + (s.buffer + [item]);
        if wake.Some? {
          assert |s.notified + {wake.value}| == |s.notified| + 1;
        }
      case Close =>
      case PopResume(t) =>
        assert |s.notified - {t}| == |s.notified| - 1;
        if |s.buffer| > 0 {
          TakeKeepsOrder(s.(notified := s.notified - {t}), t);
        }
      case _ =>
        if |s.buffer| > 0 {
          TakeKeepsOrder(s, step.t);
        }
    }
  }

  lemma {:induction false} RunKeepsInv<T(!new)>(steps: seq<Step<T>>, s: State<T>)
    requires Run(steps, s)
    ensures Inv(s)
  {
    if steps == [] {
      assert Items<T>([]) == [];
    } else {
      var last := |steps| - 1;
      var before :| Run(steps[..last], before) && Enabled(before, steps[last]) && s == Apply(before, steps[last]).0;
      RunKeepsInv(steps[..last], before);
      StepKeepsInv(before, steps[last]);
    }
  }

  // ----- What every interleaving guarantees -----

  /** No wakeup is lost: an open queue with a sleeping Pop never has more items than consumers that have
      been notified and not yet resumed; so with none of those the buffer is empty. */
  lemma NoLostWakeup<T(!new)>(steps: seq<Step<T>>, s: State<T>)
    requires Run(steps, s)
    ensures !s.closed && s.sleeping != {} ==> |s.buffer| <= |s.notified|
    ensures !s.closed && s.notified == {} && |s.buffer| > 0 ==> s.sleeping == {}
  {
    RunKeepsInv(steps, s);
  }

  /** After Close no thread sleeps, and a thread woken by it or arriving later returns without a value. */
  lemma CloseReleasesAll<T(!new)>(steps: seq<Step<T>>, s: State<T>, t: Thread)
    requires Run(steps, s) && s.closed
    ensures s.sleeping == {}
    ensures t in s.notified ==> Apply(s, PopResume(t)).1 == NoValue
    ensures t !in s.notified ==> Enabled(s, PopEnter(t)) && Apply(s, PopEnter(t)).1 == NoValue
  {
    RunKeepsInv(steps, s);
  }

  /** First in, first out, nothing lost, nothing twice: the accepted items are the removed ones, in
      order, followed by the buffer. */
  lemma FirstInFirstOut<T(!new)>(steps: seq<Step<T>>, s: State<T>)
    requires Run(steps, s)
    ensures s.accepted == Items(s.removed) + s.buffer
  {
    RunKeepsInv(steps, s);
  }

  /** A queue accepts exactly what is pushed while it is open, and a closed one stays closed. */
  lemma PushAccepts<T>(s: State<T>, step: Step<T>)
    requires Enabled(s, step)
    ensures var after := Apply(s, step).0;
            && after.accepted == (if step.Push? && !s.closed then s.accepted + [step.item] else s.accepted)
            && (step.Push? ==> after.buffer == if s.closed then s.buffer else s.buffer + [step.item])
            && (after.closed <==> s.closed || step.Close?)
  {
  }

  ghost predicate Takes<T>(step: Step<T>) {
    step.PopEnter? || step.PopResume? || step.TryPop?
  }

  /** What a taking call answers, and what it does to the queue: the first item, taken out for its caller,
      or nothing changes but who sleeps. */
  lemma AnswerIsTaken<T>(s: State<T>, step: Step<T>)
    requires Inv(s) && Enabled(s, step) && Takes(step)
    ensures var (after, answer) := Apply(s, step);
            && (answer.Item? <==> s.buffer != [] && (step.TryPop? || !s.closed))
            && (answer.Pending? <==> s.buffer == [] && !s.closed && !step.TryPop?)
            && (answer.Item? ==>
                  && after.removed == s.removed + [Removal(step.t, answer.item)]
                  && s.buffer == [answer.item] + after.buffer)
            && (!answer.Item? ==> after.removed == s.removed && after.buffer == s.buffer)
            && (answer.Pending? <==> step.t in after.sleeping && step.t !in s.sleeping)
  {
  }

  /** Every step of the sequence is enabled. */
  ghost predicate Legal<T>(s: State<T>, steps: seq<Step<T>>)
    decreases |steps|
  {
    steps != [] ==> Enabled(s, steps[0]) && Legal(Apply(s, steps[0]).0, steps[1..])
  }

  ghost function After<T>(s: State<T>, steps: seq<Step<T>>): State<T>
    requires Legal(s, steps)
    decreases |steps|
  {
    if steps == [] then s else After(Apply(s, steps[0]).0, steps[1..])
  }

  /** The items answered to callers, in order. */
  ghost function Answers<T>(s: State<T>, steps: seq<Step<T>>): seq<T>
    requires Legal(s, steps)
    decreases |steps|
  {
    if steps == [] then []
    else
      var (after, answer) := Apply(s, steps[0]);
      (if answer.Item? then [answer.item] else []) + Answers(after, steps[1..])
  }

  /** The items pushed while the queue was open, in order. */
  ghost function Offered<T>(s: State<T>, steps: seq<Step<T>>): seq<T>
    requires Legal(s, steps)
    decreases |steps|
  {
    if steps == [] then []
    else (if steps[0].Push? && !s.closed then [steps[0].item] else []) + Offered(Apply(s, steps[0]).0, steps[1..])
  }

  lemma OneAnswer<T>(s: State<T>, step: Step<T>)
    requires Inv(s) && Enabled(s, step)
    ensures var (after, answer) := Apply(s, step);
            && Inv(after)
            && Items(after.removed) == Items(s.removed) + (if answer.Item? then [answer.item] else [])
            && after.accepted == s.accepted + (if step.Push? && !s.closed then [step.item] else [])
  {
    hide Inv, Items;
    StepKeepsInv(s, step);
    if Takes(step) {
      AnswerIsTaken(s, step);
    }
  }

  lemma {:induction false} HistoryIsAnswers<T>(s: State<T>, steps: seq<Step<T>>)
    requires Inv(s) && Legal(s, steps)
    ensures Inv(After(s, steps))
    ensures Items(After(s, steps).removed) == Items(s.removed) + Answers(s, steps)
    ensures After(s, steps).accepted == s.accepted + Offered(s, steps)
    decreases |steps|
  {
    hide Inv, Apply, Enabled, Items;
    if steps != [] {
      OneAnswer(s, steps[0]);
      HistoryIsAnswers(Apply(s, steps[0]).0, steps[1..]);
    }
  }

  /** Over any run the items answered are those pushed while the queue was open, in that order, but for
      the ones still in the buffer at the end. */
  lemma AnswersInOrder<T>(steps: seq<Step<T>>)
    requires Legal(Init<T>(), steps)
    ensures Answers(Init<T>(), steps) + After(Init<T>(), steps).buffer == Offered(Init<T>(), steps)
  {
    var s, final := Init<T>(), After(Init<T>(), steps);
    assert Items(s.removed) == [];
    HistoryIsAnswers(s, steps);
    assert [] + Answers(s, steps) == Answers(s, steps) && [] + Offered(s, steps) == Offered(s, steps);
    assert final.accepted == Items(final.removed) + final.buffer;
  }

  /** Steps from one state on. */
  ghost predicate Leads<T>(s: State<T>, steps: seq<Step<T>>, final: State<T>)
    decreases |steps|
  {
    if steps == [] then s == final
    else Enabled(s, steps[0]) && Leads(Apply(s, steps[0]).0, steps[1..], final)
  }

  /** Only resumes of notified threads. */
  ghost predicate OnlyResumes<T>(steps: seq<Step<T>>) {
    forall i :: 0 <= i < |steps| ==> steps[i].PopResume?
  }

  /** However the notified threads are scheduled, once all have run an open queue has either no sleeper
      or no item: consumers that went back to sleep did not strand anything. */
  lemma {:induction false} NotifiedDrain<T>(s: State<T>, steps: seq<Step<T>>, final: State<T>)
    requires Inv(s) && Leads(s, steps, final) && OnlyResumes(steps) && final.notified == {}
    ensures |steps| == |s.notified|
    ensures !final.closed ==> final.sleeping == {} || final.buffer == []
    decreases |steps|
  {
    if steps == [] {
    } else {
      var t := steps[0].t;
      StepKeepsInv(s, steps[0]);
      assert |s.notified - {t}| == |s.notified| - 1;
      NotifiedDrain(Apply(s, steps[0]).0, steps[1..], final);
    }
  }

  /** An item pushed while someone sleeps is taken even if nothing else ever happens: resuming the
      notified threads takes as many items as there are, up to the number of those threads. */
  lemma {:induction false} NotifiedTakeItems<T>(s: State<T>, steps: seq<Step<T>>, final: State<T>)
    requires Inv(s) && !s.closed && Leads(s, steps, final) && OnlyResumes(steps) && final.notified == {}
    ensures |final.removed| - |s.removed| == if |s.buffer| <= |s.notified| then |s.buffer| else |s.notified|
    decreases |steps|
  {
    if steps == [] {
    } else {
      var t := steps[0].t;
      StepKeepsInv(s, steps[0]);
      assert |s.notified - {t}| == |s.notified| - 1;
      NotifiedTakeItems(Apply(s, steps[0]).0, steps[1..], final);
    }
  }
}

/** The queue object: buffer and flag updated under the mutex, with the condition variable's waiters. */
module QueueObject {
  import opened Options
  import opened QueueMachine

  class Queue<T> {
    var buffer: seq<T>
    var closed: bool
    /** Threads in the condition's wait set, and threads taken out of it that have not run yet. */
    var waiting: set<Thread>
    var woken: set<Thread>
    /** History. */
    ghost var accepted: seq<T>
    ghost var removed: seq<Removal<T>>

    ghost function View(): State<T>
      reads this
    {
      State(buffer, closed, waiting, woken, accepted, removed)
    }

    ghost predicate Valid()
      reads this
    {
      Inv(View())
    }

    constructor ()
      ensures Valid() && View() == Init()
    {
      buffer, closed, waiting, woken := [], false, {}, {};
      accepted, removed := [], [];
      new;
      assert Items(removed) == [];
    }

    /** Wake one waiter, whichever the condition variable picks. */
    method Signal() returns (ghost wake: Option<Thread>)
      modifies this`waiting, this`woken
      ensures if old(waiting) == {} then wake.None? && waiting == {} && woken == old(woken)
              else wake.Some? && wake.value in old(waiting)
                   && waiting == old(waiting) - {wake.value} && woken == old(woken) + {wake.value}
    {
      wake := None;
      if waiting != {} {
        var t :| t in waiting;
        waiting, woken, wake := waiting - {t}, woken + {t}, Some(t);
      }
    }

    method Push(v: T) returns (ghost wake: Option<Thread>)
      requires Valid()
      modifies this
      ensures Valid() && Enabled(old(View()), Step.Push(v, wake))
      ensures View() == Apply(old(View()), Step.Push(v, wake)).0
    {
      wake := None;
      if !closed {
        buffer := buffer + [v];
        accepted := accepted + [v];
        wake := Signal();
      }
      StepKeepsInv(old(View()), Step.Push(v, wake));
    }

    method Close()
      requires Valid()
      modifies this
      ensures Valid() && View() == Apply(old(View()), Step.Close).0
    {
      if !closed {
        closed := true;
        woken, waiting := woken + waiting, {};
      }
      StepKeepsInv(old(View()), Step.Close);
    }

    /** The loop of Pop from its check to the wait or the return, the mutex being held throughout. */
    method PopSection(t: Thread) returns (result: Result<T>)
      modifies this
      ensures (View(), result) == PopBody(old(View()), t)
    {
      if |buffer| == 0 && !closed {
        waiting := waiting + {t};
        return Pending;
      }
      if closed {
        return NoValue;
      }
      result := Item(buffer[0]);
      removed := removed + [Removal(t, buffer[0])];
      buffer := buffer[1..];
    }

    method PopEnter(t: Thread) returns (result: Result<T>)
      requires Valid() && Enabled(View(), Step.PopEnter(t))
      modifies this
      ensures Valid() && (View(), result) == Apply(old(View()), Step.PopEnter(t))
    {
      result := PopSection(t);
      StepKeepsInv(old(View()), Step.PopEnter(t));
    }

    method PopResume(t: Thread) returns (result: Result<T>)
      requires Valid() && Enabled(View(), Step.PopResume(t))
      modifies this
      ensures Valid() && (View(), result) == Apply(old(View()), Step.PopResume(t))
    {
      woken := woken - {t};
      result := PopSection(t);
      StepKeepsInv(old(View()), Step.PopResume(t));
    }

    /** ok is false only when the queue is open and empty. */
    method TryPop(t: Thread) returns (v: Option<T>, ok: bool)
      requires Valid() && Enabled(View(), Step.TryPop(t))
      modifies this
      ensures Valid() && View() == Apply(old(View()), Step.TryPop(t)).0
      ensures Apply(old(View()), Step.TryPop(t)).1 == match v case None => NoValue case Some(item) => Item(item)
      ensures ok <==> v.Some? || old(closed)
    {
      v, ok := None, false;
      if |buffer| > 0 {
        v, ok := Some(buffer[0]), true;
        removed := removed + [Removal(t, buffer[0])];
        buffer := buffer[1..];
      } else if closed {
        ok := true;
      }
      StepKeepsInv(old(View()), Step.TryPop(t));
    }

    method Len() returns (n: nat)
      ensures n == |View().buffer|
    {
      n := |buffer|;
    }
  }
}
