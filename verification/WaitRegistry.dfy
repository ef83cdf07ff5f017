/** The sharded wait registry (pkg/wait/wait.go).  The section under a shard's lock is one step; Trigger
    sends and closes outside the lock, each as a step of its own, so anything may happen in between. */
module WaitMachine {
  import opened Options

  type Id = nat
  type Thread = nat
  type ChanId = nat

  const SHARDS := 64
  const CAPACITY := 1

  /** The Trigger call that took a channel out of the registry, with the value it delivers. */
  datatype Claim<T> = Claim(t: Thread, value: T)

  /** A channel made by Register.  The id, the claim and the two histories are bookkeeping. */
  datatype Chan<T> = Chan(
    id: Id, buffer: seq<T>, closed: bool, claim: Option<Claim<T>>, sent: seq<T>, received: seq<T>)

  datatype Pc<T> = Idle | Removed(ch: ChanId, value: T) | Sent(ch: ChanId)

  /** `crashed` records a send on a closed channel or a second close, which panic. */
  datatype State<T> = State(
    shards: seq<map<Id, ChanId>>, chans: seq<Chan<T>>, pcs: map<Thread, Pc<T>>, crashed: bool)

  datatype Step<T> =
    | Register(t: Thread, id: Id)
    | TriggerRemove(t: Thread, id: Id, value: T)
    | TriggerSend(t: Thread)
    | TriggerClose(t: Thread)
    | IsRegistered(t: Thread, id: Id)
    | Receive(t: Thread, ch: ChanId)

  /** What a call answers when its step completes it.  A duplicate id is a panic of the caller. */
  datatype Reply<T> = Nothing | Registered(ch: ChanId) | DuplicateId | Found(found: bool) | Item(value: T) | Closed

  ghost function Init<T>(): State<T> {
    State(seq(SHARDS, _ => map[]), [], map[], false)
  }

  function PcOf<T>(pcs: map<Thread, Pc<T>>, t: Thread): Pc<T> {
    if t in pcs then pcs[t] else Idle
  }

  function With(m: map<Id, ChanId>, id: Id, ch: ChanId): map<Id, ChanId> {
    m[id := ch]
  }

  function Without(m: map<Id, ChanId>, id: Id): map<Id, ChanId> {
    map k | k in m && k != id :: m[k]
  }

  // ----- Channels -----

  ghost function NewChan<T>(id: Id): Chan<T> {
    Chan(id, [], false, None, [], [])
  }

  ghost predicate CanSend<T>(c: Chan<T>) {
    |c.buffer| < CAPACITY || c.closed
  }

  ghost function Put<T>(c: Chan<T>, value: T): Chan<T> {
    c.(buffer := c.buffer + [value], sent := c.sent + [value])
  }

  ghost function Take<T>(c: Chan<T>): Chan<T>
    requires c.buffer != []
  {
    c.(buffer := c.buffer[1..], received := c.received + [c.buffer[0]])
  }

  // ----- The machine -----

  /** The guards: program order, and the blocking of channel operations. */
  ghost predicate Enabled<T>(s: State<T>, step: Step<T>) {
    var pc := PcOf(s.pcs, step.t);
    && !s.crashed && |s.shards| == SHARDS
    && match step
       case Register(_, _) => pc.Idle?
       case TriggerRemove(_, id, _) =>
         var shard := s.shards[id % SHARDS];
         pc.Idle? && (id in shard ==> shard[id] < |s.chans|)
       case TriggerSend(_) => pc.Removed? && pc.ch < |s.chans| && CanSend(s.chans[pc.ch])
       case TriggerClose(_) => pc.Sent? && pc.ch < |s.chans|
       case IsRegistered(_, _) => pc.Idle?
       case Receive(_, ch) => pc.Idle? && ch < |s.chans| && (s.chans[ch].buffer != [] || s.chans[ch].closed)
  }

  ghost function At<T>(s: State<T>, t: Thread, pc: Pc<T>): State<T> {
    s.(pcs := s.pcs[t := pc])
  }

  ghost function WithChan<T>(s: State<T>, ch: ChanId, c: Chan<T>): State<T>
    requires ch < |s.chans|
  {
    s.(chans := s.chans[ch := c])
  }

  ghost function Apply<T>(s: State<T>, step: Step<T>): (State<T>, Reply<T>)
    requires Enabled(s, step)
  {
    var t := step.t;
    var pc := PcOf(s.pcs, t);
    match step
    case Register(_, id) =>
      var made := s.(chans := s.chans + [NewChan(id)]);
      var shard := s.shards[id % SHARDS];
      if id in shard then (made, DuplicateId)
      else (made.(shards := s.shards[id % SHARDS := With(shard, id, |s.chans|)]), Registered(|s.chans|))
    case TriggerRemove(_, id, value) =>
      var shard := s.shards[id % SHARDS];
      if id in shard then
        var claimed := WithChan(s, shard[id], s.chans[shard[id]].(claim := Some(Claim(t, value))));
        (At(claimed.(shards := s.shards[id % SHARDS := Without(shard, id)]), t, Removed(shard[id], value)), Nothing)
      else (s, Nothing)
    case TriggerSend(_) =>
      if s.chans[pc.ch].closed then (s.(crashed := true), Nothing)
      else (At(WithChan(s, pc.ch, Put(s.chans[pc.ch], pc.value)), t, Sent(pc.ch)), Nothing)
    case TriggerClose(_) =>
      if s.chans[pc.ch].closed then (s.(crashed := true), Nothing)
      else (At(WithChan(s, pc.ch, s.chans[pc.ch].(closed := true)), t, Idle), Nothing)
    case IsRegistered(_, id) => (s, Found(id in s.shards[id % SHARDS]))
    case Receive(_, ch) =>
      if s.chans[ch].buffer != [] then (WithChan(s, ch, Take(s.chans[ch])), Item(s.chans[ch].buffer[0]))
      else (s, Closed)
  }

  ghost predicate Run<T(!new)>(steps: seq<Step<T>>, s: State<T>) {
    if steps == [] then s == Init()
    else
      var last := |steps| - 1;
      exists before ::
        Run(steps[..last], before) && Enabled(before, steps[last]) && s == Apply(before, steps[last]).0
  }

  // ----- The invariant -----

  /** Every entry is filed in the shard of its id and leads to a channel made for that id that no Trigger
      has claimed. */
  ghost predicate ShardsInv<T>(s: State<T>) {
    && |s.shards| == SHARDS
    && forall i, id :: 0 <= i < SHARDS && id in s.shards[i] ==>
         && id % SHARDS == i && s.shards[i][id] < |s.chans|
         && s.chans[s.shards[i][id]].id == id && s.chans[s.shards[i][id]].claim.None?
  }

  /** The life of a channel: nothing is sent before a claim, and then only the claimed value, once; what
      was sent has been received or is in the buffer; it is closed after the send. */
  ghost predicate ChanInv<T>(c: Chan<T>) {
    && c.sent == c.received + c.buffer
    && (c.sent != [] ==> c.claim.Some? && c.sent == [c.claim.value.value])
    && (c.closed ==> c.sent != [])
  }

  ghost predicate ChansInv<T>(s: State<T>) {
    forall ch :: 0 <= ch < |s.chans| ==> ChanInv(s.chans[ch])
  }

  /** A thread between the sections of Trigger has the claim on its channel. */
  ghost predicate Owns<T>(s: State<T>, t: Thread) {
    var pc := PcOf(s.pcs, t);
    !pc.Idle? ==>
      && pc.ch < |s.chans| && s.chans[pc.ch].claim.Some? && s.chans[pc.ch].claim.value.t == t
      && !s.chans[pc.ch].closed
      && (if pc.Removed? then s.chans[pc.ch].sent == [] && s.chans[pc.ch].claim.value.value == pc.value
          else s.chans[pc.ch].sent != [])
  }

  ghost predicate OwnersInv<T>(s: State<T>) {
    forall t: Thread :: Owns(s, t)
  }

  /** A claimed channel is closed, or its Trigger is still at work on it. */
  ghost predicate Attended<T>(s: State<T>, ch: ChanId)
    requires ch < |s.chans|
  {
    var c := s.chans[ch];
    c.claim.Some? && !c.closed ==>
      !PcOf(s.pcs, c.claim.value.t).Idle? && PcOf(s.pcs, c.claim.value.t).ch == ch
  }

  ghost predicate AttendedInv<T>(s: State<T>) {
    forall ch :: 0 <= ch < |s.chans| ==> Attended(s, ch)
  }

  ghost predicate Inv<T>(s: State<T>) {
    !s.crashed && ShardsInv(s) && ChansInv(s) && OwnersInv(s) && AttendedInv(s)
  }

  lemma NeverCrashes<T>(s: State<T>, step: Step<T>)
    requires Inv(s) && Enabled(s, step)
    ensures !Apply(s, step).0.crashed
  {
    assert Owns(s, step.t);
  }

  lemma ShardsKept<T>(s: State<T>, step: Step<T>)
    requires Inv(s) && Enabled(s, step)
    ensures ShardsInv(Apply(s, step).0)
  {
    hide ChansInv, OwnersInv, AttendedInv;
  }

  lemma ChanKept<T>(s: State<T>, step: Step<T>, ch: ChanId)
    requires Inv(s) && Enabled(s, step) && ch < |Apply(s, step).0.chans|
    ensures ChanInv(Apply(s, step).0.chans[ch])
  {
    assert Owns(s, step.t);
    assert ch < |s.chans| ==> ChanInv(s.chans[ch]);
    hide ChansInv, OwnersInv, AttendedInv;
    if step.Receive? && ch == step.ch && s.chans[ch].buffer != [] {
      var c := s.chans[ch];
      assert c.received + c.buffer == (c.received + [c.buffer[0]]) + c.buffer[1..];
    }
  }

  lemma OwnersKept<T>(s: State<T>, step: Step<T>, u: Thread)
    requires Inv(s) && Enabled(s, step)
    ensures Owns(Apply(s, step).0, u)
  {
    assert Owns(s, step.t) && Owns(s, u);
    hide ChansInv, OwnersInv, AttendedInv;
  }

  lemma AttendedKept<T>(s: State<T>, step: Step<T>, ch: ChanId)
    requires Inv(s) && Enabled(s, step) && ch < |Apply(s, step).0.chans|
    ensures Attended(Apply(s, step).0, ch)
  {
    assert Owns(s, step.t);
    assert ch < |s.chans| ==> Attended(s, ch);
    hide ChansInv, OwnersInv, AttendedInv, ShardsInv;
    match step {
      case TriggerRemove(_, id, _) =>
        Unclaimed(s, id);
      case _ =>
    }
  }

  lemma Unclaimed<T>(s: State<T>, id: Id)
    requires Inv(s)
    ensures var shard := s.shards[id % SHARDS];
            id in shard ==> shard[id] < |s.chans| && s.chans[shard[id]].claim.None? && s.chans[shard[id]].id == id
  {
  }

  lemma StepKeepsInv<T>(s: State<T>, step: Step<T>)
    requires Inv(s) && Enabled(s, step)
    ensures Inv(Apply(s, step).0)
  {
    hide Inv, Apply;
    var after := Apply(s, step).0;
    NeverCrashes(s, step);
    ShardsKept(s, step);
    forall ch | 0 <= ch < |after.chans|
      ensures ChanInv(after.chans[ch]) && Attended(after, ch)
    {
      ChanKept(s, step, ch);
      AttendedKept(s, step, ch);
    }
    forall u: Thread
      ensures Owns(after, u)
    {
      OwnersKept(s, step, u);
    }
    InvParts(after);
  }

  lemma InvParts<T>(s: State<T>)
    requires !s.crashed && ShardsInv(s) && ChansInv(s) && OwnersInv(s) && AttendedInv(s)
    ensures Inv(s)
  {
  }

  lemma {:induction false} RunKeepsInv<T(!new)>(steps: seq<Step<T>>, s: State<T>)
    requires Run(steps, s)
    ensures Inv(s)
  {
    if steps != [] {
      var last := |steps| - 1;
      var before :| Run(steps[..last], before) && Enabled(before, steps[last]) && s == Apply(before, steps[last]).0;
      RunKeepsInv(steps[..last], before);
      StepKeepsInv(before, steps[last]);
    }
  }

  // ----- What every interleaving guarantees -----

  /** The send of a Trigger finds an open channel with room, and its close an open one, whatever other
      calls did since the channel left the registry. */
  lemma SendNeverBlocks<T(!new)>(steps: seq<Step<T>>, s: State<T>, t: Thread)
    requires Run(steps, s)
    ensures !s.crashed
    ensures PcOf(s.pcs, t).Removed? ==>
              && Enabled(s, TriggerSend(t))
              && s.chans[PcOf(s.pcs, t).ch].buffer == [] && !s.chans[PcOf(s.pcs, t).ch].closed
    ensures PcOf(s.pcs, t).Sent? ==>
              Enabled(s, TriggerClose(t)) && !s.chans[PcOf(s.pcs, t).ch].closed
  {
    RunKeepsInv(steps, s);
    assert Owns(s, t);
    if PcOf(s.pcs, t).Removed? {
      assert ChanInv(s.chans[PcOf(s.pcs, t).ch]);
    }
  }

  /** A channel carries at most one value, that of the Trigger which removed it from the registry; it is
      closed only after the send; and a channel still registered has seen neither. */
  lemma OneValuePerChannel<T(!new)>(steps: seq<Step<T>>, s: State<T>, ch: ChanId)
    requires Run(steps, s) && ch < |s.chans|
    ensures var c := s.chans[ch];
            && |c.sent| <= 1 && c.sent == c.received + c.buffer
            && (c.sent != [] ==> c.claim.Some? && c.sent[0] == c.claim.value.value)
            && (c.closed ==> c.sent != [])
            && ((exists id: Id :: RegisteredAs(s, id, ch)) ==> c.sent == [] && !c.closed)
  {
    RunKeepsInv(steps, s);
    assert ChanInv(s.chans[ch]);
  }

  /** Two registrations never share a channel. */
  lemma ChannelsAreDistinct<T(!new)>(steps: seq<Step<T>>, s: State<T>, id: Id, other: Id)
    requires Run(steps, s)
    ensures |s.shards| == SHARDS
    ensures id in s.shards[id % SHARDS] && other in s.shards[other % SHARDS] && id != other ==>
              s.shards[id % SHARDS][id] != s.shards[other % SHARDS][other]
  {
    RunKeepsInv(steps, s);
  }

  // ----- Many shards, one map -----

  /** The union of the shards. */
  ghost function Table(shards: seq<map<Id, ChanId>>): map<Id, ChanId>
    requires |shards| == SHARDS
  {
    var ids := set i, id | 0 <= i < SHARDS && id in shards[i] && id % SHARDS == i :: id;
    map id | id in ids :: shards[id % SHARDS][id]
  }

  lemma TableAt(shards: seq<map<Id, ChanId>>, id: Id)
    requires |shards| == SHARDS
    ensures id in Table(shards) <==> id in shards[id % SHARDS]
    ensures id in Table(shards) ==> Table(shards)[id] == shards[id % SHARDS][id]
  {
  }

  lemma TableInsert(shards: seq<map<Id, ChanId>>, id: Id, ch: ChanId)
    requires |shards| == SHARDS
    ensures Table(shards[id % SHARDS := With(shards[id % SHARDS], id, ch)]) == Table(shards)[id := ch]
  {
    var after := shards[id % SHARDS := With(shards[id % SHARDS], id, ch)];
    hide Table;
    forall k: Id
      ensures k in Table(after) <==> k in Table(shards)[id := ch]
      ensures k in Table(after) ==> Table(after)[k] == Table(shards)[id := ch][k]
    {
      TableAt(after, k);
      TableAt(shards, k);
    }
  }

  lemma TableRemove(shards: seq<map<Id, ChanId>>, id: Id)
    requires |shards| == SHARDS
    ensures Table(shards[id % SHARDS := Without(shards[id % SHARDS], id)]) == Without(Table(shards), id)
  {
    var after := shards[id % SHARDS := Without(shards[id % SHARDS], id)];
    hide Table;
    forall k: Id
      ensures k in Table(after) <==> k in Without(Table(shards), id)
      ensures k in Table(after) ==> Table(after)[k] == Without(Table(shards), id)[k]
    {
      TableAt(after, k);
      TableAt(shards, k);
    }
  }

  /** The registry one would write without shards. */
  datatype Simple<T> = Simple(table: map<Id, ChanId>, chans: seq<Chan<T>>, pcs: map<Thread, Pc<T>>)

  ghost function Flat<T>(s: State<T>): Simple<T>
    requires |s.shards| == SHARDS
  {
    Simple(Table(s.shards), s.chans, s.pcs)
  }

  /** Its calls: a map with an entry for each waiting id, and channels used without any checks. */
  ghost predicate SimpleStep<T>(s: Simple<T>, step: Step<T>, after: Simple<T>, reply: Reply<T>) {
    var t := step.t;
    var pc := PcOf(s.pcs, t);
    match step
    case Register(_, id) =>
      && after.chans == s.chans + [NewChan(id)] && after.pcs == s.pcs
      && if id in s.table then after.table == s.table && reply == DuplicateId
         else after.table == s.table[id := |s.chans|] && reply == Registered(|s.chans|)
    case TriggerRemove(_, id, value) =>
      && reply == Nothing && after.table == Without(s.table, id)
      && if id in s.table then
           && s.table[id] < |s.chans|
           && after.chans == s.chans[s.table[id] := s.chans[s.table[id]].(claim := Some(Claim(t, value)))]
           && after.pcs == s.pcs[t := Removed(s.table[id], value)]
         else after.chans == s.chans && after.pcs == s.pcs
    case TriggerSend(_) =>
      && pc.Removed? && pc.ch < |s.chans| && reply == Nothing && after.table == s.table
      && after.chans == s.chans[pc.ch := Put(s.chans[pc.ch], pc.value)] && after.pcs == s.pcs[t := Sent(pc.ch)]
    case TriggerClose(_) =>
      && pc.Sent? && pc.ch < |s.chans| && reply == Nothing && after.table == s.table
      && after.chans == s.chans[pc.ch := s.chans[pc.ch].(closed := true)] && after.pcs == s.pcs[t := Idle]
    case IsRegistered(_, id) => after == s && reply == Found(id in s.table)
    case Receive(_, ch) =>
      && ch < |s.chans| && after.table == s.table && after.pcs == s.pcs
      && if s.chans[ch].buffer != [] then
           after.chans == s.chans[ch := Take(s.chans[ch])] && reply == Item(s.chans[ch].buffer[0])
         else after.chans == s.chans && reply == Closed
  }

  lemma RegisterRefines<T>(s: State<T>, step: Step<T>)
    requires Enabled(s, step) && step.Register?
    ensures |Apply(s, step).0.shards| == SHARDS
    ensures SimpleStep(Flat(s), step, Flat(Apply(s, step).0), Apply(s, step).1)
  {
    TableAt(s.shards, step.id);
    TableInsert(s.shards, step.id, |s.chans|);
    hide Table;
  }

  lemma RemoveRefines<T>(s: State<T>, step: Step<T>)
    requires Enabled(s, step) && step.TriggerRemove?
    ensures |Apply(s, step).0.shards| == SHARDS
    ensures SimpleStep(Flat(s), step, Flat(Apply(s, step).0), Apply(s, step).1)
  {
    TableAt(s.shards, step.id);
    TableRemove(s.shards, step.id);
    hide Table;
    assert step.id !in Table(s.shards) ==> Without(Table(s.shards), step.id) == Table(s.shards);
  }

  /** Every step of the sharded registry is the same step of the simple one, with the same answer. */
  lemma ShardsRefineOneMap<T>(s: State<T>, step: Step<T>)
    requires Inv(s) && Enabled(s, step)
    ensures |Apply(s, step).0.shards| == SHARDS
    ensures SimpleStep(Flat(s), step, Flat(Apply(s, step).0), Apply(s, step).1)
  {
    NeverCrashes(s, step);
    hide Inv, Table;
    match step {
      case Register(_, _) => RegisterRefines(s, step);
      case TriggerRemove(_, _, _) => RemoveRefines(s, step);
      case IsRegistered(_, id) => TableAt(s.shards, id);
      case _ =>
    }
  }

  // ----- From registration to delivery -----

  ghost predicate Leads<T>(s: State<T>, steps: seq<Step<T>>, final: State<T>)
    decreases |steps|
  {
    if steps == [] then s == final
    else Enabled(s, steps[0]) && Leads(Apply(s, steps[0]).0, steps[1..], final)
  }

  /** The step is a Trigger of the id, at the section that looks it up. */
  ghost predicate Triggers<T>(step: Step<T>, id: Id) {
    step.TriggerRemove? && step.id == id
  }

  ghost predicate RegisteredAs<T>(s: State<T>, id: Id, ch: ChanId) {
    |s.shards| == SHARDS && id in s.shards[id % SHARDS] && s.shards[id % SHARDS][id] == ch
  }

  /** Only a Trigger of the id ends a registration. */
  lemma StaysRegistered<T>(s: State<T>, step: Step<T>, id: Id, ch: ChanId)
    requires Inv(s) && Enabled(s, step) && RegisteredAs(s, id, ch) && !Triggers(step, id)
    ensures RegisteredAs(Apply(s, step).0, id, ch)
  {
  }

  /** A claim is final: a channel out of the registry is never claimed again. */
  lemma ClaimStays<T>(s: State<T>, step: Step<T>, ch: ChanId)
    requires Inv(s) && Enabled(s, step) && ch < |s.chans| && s.chans[ch].claim.Some?
    ensures var after := Apply(s, step).0; ch < |after.chans| && after.chans[ch].claim == s.chans[ch].claim
  {
  }

  lemma {:induction false} ClaimStaysOverRuns<T>(s: State<T>, steps: seq<Step<T>>, final: State<T>, ch: ChanId)
    requires Inv(s) && Leads(s, steps, final) && ch < |s.chans| && s.chans[ch].claim.Some?
    ensures Inv(final) && ch < |final.chans| && final.chans[ch].claim == s.chans[ch].claim
    decreases |steps|
  {
    if steps != [] {
      ClaimStays(s, steps[0], ch);
      StepKeepsInv(s, steps[0]);
      ClaimStaysOverRuns(Apply(s, steps[0]).0, steps[1..], final, ch);
    }
  }

  /** From a registration on, whatever the interleaving: without a Trigger of the id it stays, and nothing
      is sent. */
  lemma {:induction false} WaitsForTrigger<T>(
    s: State<T>, steps: seq<Step<T>>, final: State<T>, id: Id, ch: ChanId)
    requires Inv(s) && Leads(s, steps, final) && RegisteredAs(s, id, ch)
    requires forall i :: 0 <= i < |steps| ==> !Triggers(steps[i], id)
    ensures Inv(final) && RegisteredAs(final, id, ch)
    ensures ch < |final.chans| && final.chans[ch].sent == [] && !final.chans[ch].closed
    decreases |steps|
  {
    if steps == [] {
      Unclaimed(s, id);
      assert ChanInv(s.chans[ch]);
    } else {
      StaysRegistered(s, steps[0], id, ch);
      StepKeepsInv(s, steps[0]);
      WaitsForTrigger(Apply(s, steps[0]).0, steps[1..], final, id, ch);
    }
  }

  /** The first Trigger of the id after the registration is the one that delivers: nothing but its value
      is ever sent, even if the id is registered and triggered again, and once its thread is done with
      the channel that value has been sent and the channel closed. */
  lemma {:induction false} FirstTriggerDelivers<T>(
    s: State<T>, steps: seq<Step<T>>, final: State<T>, id: Id, ch: ChanId, first: nat)
    requires Inv(s) && Leads(s, steps, final) && RegisteredAs(s, id, ch)
    requires first < |steps| && Triggers(steps[first], id)
    requires forall i :: 0 <= i < first ==> !Triggers(steps[i], id)
    ensures ch < |final.chans|
    ensures final.chans[ch].sent == [] || final.chans[ch].sent == [steps[first].value]
    ensures (forall t: Thread :: !PcOf(final.pcs, t).Idle? ==> PcOf(final.pcs, t).ch != ch) ==>
              final.chans[ch].closed && final.chans[ch].sent == [steps[first].value]
    decreases |steps|
  {
    var after := Apply(s, steps[0]).0;
    StepKeepsInv(s, steps[0]);
    if first > 0 {
      StaysRegistered(s, steps[0], id, ch);
      FirstTriggerDelivers(after, steps[1..], final, id, ch, first - 1);
    } else {
      Unclaimed(s, id);
      assert ch < |after.chans| && after.chans[ch].claim == Some(Claim(steps[0].t, steps[0].value));
      ClaimStaysOverRuns(after, steps[1..], final, ch);
      assert ChanInv(final.chans[ch]) && Attended(final, ch);
    }
  }
}

/** The registry object: an array of maps to channels, both updated in place.  Each method is one atomic
    section of Register, Trigger or IsRegistered, proved to be the machine step of the same name. */
module WaitObject {
  import opened Options
  import opened WaitMachine

  /** A buffered Go channel of capacity one. */
  class Channel<T> {
    ghost const id: Id
    ghost const index: ChanId
    ghost var claim: Option<Claim<T>>
    ghost var sent: seq<T>
    ghost var received: seq<T>
    var buffer: seq<T>
    var closed: bool

    constructor (ghost id: Id, ghost index: ChanId)
      ensures this.id == id && this.index == index && View() == NewChan(id)
    {
      this.id, this.index := id, index;
      claim, sent, received := None, [], [];
      buffer, closed := [], false;
    }

    ghost function View(): Chan<T>
      reads this
    {
      Chan(id, buffer, closed, claim, sent, received)
    }
  }

  class List<T> {
    const e: array<map<Id, Channel<T>>>
    /** Every channel ever made, and where each thread stands. */
    ghost var made: seq<Channel<T>>
    ghost var pcs: map<Thread, Pc<T>>

    ghost predicate Shape()
      reads this, e
    {
      && e.Length == SHARDS
      && (forall k :: 0 <= k < |made| ==> made[k].index == k)
      && (forall i, id :: 0 <= i < e.Length && id in e[i] ==> e[i][id] in made)
    }

    ghost function Shards(): (s: seq<map<Id, ChanId>>)
      reads this, e
      ensures |s| == e.Length
    {
      seq(e.Length, i requires 0 <= i < e.Length reads this, e => Indices(e[i]))
    }

    ghost function Chans(): (s: seq<Chan<T>>)
      reads this, made
      ensures |s| == |made|
    {
      seq(|made|, k requires 0 <= k < |made| reads this, made => made[k].View())
    }

    ghost function View(): State<T>
      reads this, e, made
    {
      State(Shards(), Chans(), pcs, false)
    }

    ghost predicate Valid()
      reads this, e, made
    {
      Shape() && Inv(View())
    }

    ghost predicate CanStep(step: Step<T>)
      reads this, e, made
    {
      Valid() && Enabled(View(), step)
    }

    constructor ()
      ensures Valid() && View() == Init() && fresh(e)
    {
      e := new map<Id, Channel<T>>[SHARDS](_ => map[]);
      made, pcs := [], map[];
      new;
      assert Shards() == seq(SHARDS, _ => map[]);
    }

    /** No channel is returned for a duplicate id: the call panics. */
    method Register(ghost t: Thread, id: Id) returns (result: Option<Channel<T>>)
      requires CanStep(Step.Register(t, id))
      modifies this`made, e
      ensures Valid() && View() == Apply(old(View()), Step.Register(t, id)).0
      ensures Apply(old(View()), Step.Register(t, id)).1
           == match result case None => DuplicateId case Some(ch) => Registered(ch.index)
      ensures result.Some? ==> id in e[id % SHARDS] && e[id % SHARDS][id] == result.value && result.value in made
    {
      hide ShardsInv, ChansInv, OwnersInv, AttendedInv;
      var idx := id % SHARDS;
      var newCh := new Channel<T>(id, |made|);
      assert Chans() == old(Chans());
      made := made + [newCh];
      assert Chans() == old(Chans()) + [newCh.View()];
      if id !in e[idx] {
        e[idx] := e[idx][id := newCh];
        assert Indices(e[idx]) == With(old(Shards())[idx], id, newCh.index);
        assert Shards() == old(Shards())[idx := With(old(Shards())[idx], id, newCh.index)];
        result := Some(newCh);
      } else {
        assert Shards() == old(Shards());
        result := None;
      }
      assert Shape();
      assert View().shards == Apply(old(View()), Step.Register(t, id)).0.shards;
      assert View().chans == Apply(old(View()), Step.Register(t, id)).0.chans;
      StepKeepsInv(old(View()), Step.Register(t, id));
    }

    /** The locked section of Trigger: look the id up and delete it. */
    method TriggerRemove(ghost t: Thread, id: Id, ghost x: T) returns (ch: Channel?<T>)
      requires CanStep(Step.TriggerRemove(t, id, x))
      modifies this`pcs, e, if id in e[id % SHARDS] then {e[id % SHARDS][id]} else {}
      ensures Valid() && View() == Apply(old(View()), Step.TriggerRemove(t, id, x)).0
      ensures ch == if id in old(e[id % SHARDS]) then old(e[id % SHARDS])[id] else null
      ensures ch != null ==> ch in made && PcOf(pcs, t) == Removed(ch.index, x)
      ensures made == old(made) && id !in e[id % SHARDS]
    {
      hide ShardsInv, ChansInv, OwnersInv, AttendedInv;
      var idx := id % SHARDS;
      ch := null;
      if id in e[idx] {
        ch := e[idx][id];
        assert Shards()[idx] == Indices(e[idx]);
        e[idx] := map k | k in e[idx] && k != id :: e[idx][k];
        ch.claim := Some(Claim(t, x));
        pcs := pcs[t := Pc.Removed(ch.index, x)];
        assert Indices(e[idx]) == Without(old(Shards())[idx], id);
        assert Shards() == old(Shards())[idx := Without(old(Shards())[idx], id)];
        assert Chans() == old(Chans())[ch.index := ch.View()];
      }
      StepKeepsInv(old(View()), Step.TriggerRemove(t, id, x));
    }

    method TriggerSend(ghost t: Thread, ch: Channel<T>, x: T)
      requires CanStep(Step.TriggerSend(t)) && ch in made && PcOf(pcs, t) == Removed(ch.index, x)
      modifies this`pcs, ch
      ensures Valid() && View() == Apply(old(View()), Step.TriggerSend(t)).0
      ensures old(ch.buffer) == [] && !old(ch.closed) && ch.buffer == [x] && ch in made && made == old(made)
      ensures PcOf(pcs, t) == Sent(ch.index)
    {
      NeverCrashes(View(), Step.TriggerSend(t));
      assert Chans()[ch.index] == ch.View();
      hide ShardsInv, ChansInv, OwnersInv, AttendedInv;
      ch.buffer := ch.buffer + [x];
      ch.sent := ch.sent + [x];
      pcs := pcs[t := Pc.Sent(ch.index)];
      assert Chans() == old(Chans())[ch.index := ch.View()];
      assert Shards() == old(Shards());
      StepKeepsInv(old(View()), Step.TriggerSend(t));
    }

    method TriggerClose(ghost t: Thread, ch: Channel<T>)
      requires CanStep(Step.TriggerClose(t)) && ch in made && PcOf(pcs, t) == Sent(ch.index)
      modifies this`pcs, ch
      ensures Valid() && View() == Apply(old(View()), Step.TriggerClose(t)).0
      ensures !old(ch.closed) && ch.closed && ch.buffer == old(ch.buffer) && made == old(made)
    {
      NeverCrashes(View(), Step.TriggerClose(t));
      assert Chans()[ch.index] == ch.View();
      hide ShardsInv, ChansInv, OwnersInv, AttendedInv;
      ch.closed := true;
      pcs := pcs[t := Idle];
      assert Chans() == old(Chans())[ch.index := ch.View()];
      assert Shards() == old(Shards());
      StepKeepsInv(old(View()), Step.TriggerClose(t));
    }

    /** A whole Trigger that nothing interrupts. */
    method Trigger(ghost t: Thread, id: Id, x: T) returns (ch: Channel?<T>)
      requires CanStep(Step.TriggerRemove(t, id, x))
      modifies this`pcs, e, if id in e[id % SHARDS] then {e[id % SHARDS][id]} else {}
      ensures Valid() && id !in e[id % SHARDS]
      ensures ch == if id in old(e[id % SHARDS]) then old(e[id % SHARDS])[id] else null
      ensures ch != null ==> ch.buffer == [x] && ch.closed
    {
      ch := TriggerRemove(t, id, x);
      hide Inv, Apply, Enabled;
      if ch != null {
        CanFinish(View(), t);
        TriggerSend(t, ch, x);
        CanFinish(View(), t);
        TriggerClose(t, ch);
      }
    }

    method IsRegistered(id: Id) returns (ok: bool)
      requires Valid()
      ensures ok <==> id in Table(View().shards)
    {
      ok := id in e[id % SHARDS];
      TableAt(View().shards, id);
    }

    /** A waiter receives: the value, or nothing once the channel is closed and empty. */
    method Receive(ghost t: Thread, ch: Channel<T>) returns (v: Option<T>)
      requires ch in made && CanStep(Step.Receive(t, ch.index))
      modifies ch`buffer, ch`received
      ensures Valid() && View() == Apply(old(View()), Step.Receive(t, ch.index)).0
      ensures Apply(old(View()), Step.Receive(t, ch.index)).1 == match v case None => Closed case Some(x) => Item(x)
    {
      assert Chans()[ch.index] == ch.View();
      hide ShardsInv, ChansInv, OwnersInv, AttendedInv;
      v := None;
      if |ch.buffer| > 0 {
        v := Some(ch.buffer[0]);
        ch.received := ch.received + [ch.buffer[0]];
        ch.buffer := ch.buffer[1..];
        assert Chans() == old(Chans())[ch.index := ch.View()];
      }
      assert Shards() == old(Shards());
      StepKeepsInv(old(View()), Step.Receive(t, ch.index));
    }
  }

  ghost function Indices<T>(m: map<Id, Channel<T>>): map<Id, ChanId> {
    map id | id in m :: m[id].index
  }

  lemma CanFinish<T>(s: State<T>, t: Thread)
    requires Inv(s)
    ensures PcOf(s.pcs, t).Removed? ==> Enabled(s, Step.TriggerSend(t))
    ensures PcOf(s.pcs, t).Sent? ==> Enabled(s, Step.TriggerClose(t))
  {
    assert Owns(s, t);
    if PcOf(s.pcs, t).Removed? {
      assert ChanInv(s.chans[PcOf(s.pcs, t).ch]);
    }
  }
}
