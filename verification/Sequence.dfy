/** The durable sequence allocator (config/seq.go): blocks of numbers are reserved in a database row and
    handed out from memory.  Calls are serialised by one lock, so a run is a sequence of calls and
    process crashes; a database write may fail before or after taking effect. */
module SequenceMachine {
  import opened Options

  const SEQ_STEP := 1000
  const FIRST_SEQ := 1000000

  /** What a process remembers about a flag. */
  datatype Counter = Counter(curSeq: int, maxSeq: int)

  /** One flag: the stored row, and the live process's memory of it. */
  datatype Flag = Flag(row: Option<int>, mem: Option<Counter>)

  datatype Write = Done | Failed | FailedButDone

  /** How the database behaves during one call. */
  datatype Database = Database(queryFails: bool, onInit: Write, onExtend: Write)

  datatype Reply = Number(n: int) | QueryError | InitError | ExtendError

  function Written(row: Option<int>, minSeq: int, write: Write): Option<int> {
    if write.Failed? then row else Some(minSeq)
  }

  /** Reserve a new block if the current one is used up, then hand out the next number. */
  function Issue(row: Option<int>, c: Counter, write: Write): (Flag, Reply) {
    if c.curSeq >= c.maxSeq then
      var row' := Written(row, c.curSeq + SEQ_STEP, write);
      if !write.Done? then (Flag(row', Some(c)), ExtendError)
      else (Flag(row', Some(Counter(c.curSeq + 1, c.maxSeq + SEQ_STEP))), Number(c.curSeq + 1))
    else (Flag(row, Some(Counter(c.curSeq + 1, c.maxSeq))), Number(c.curSeq + 1))
  }

  function GenSeq(f: Flag, db: Database): (Flag, Reply) {
    match f.mem
    case Some(c) => Issue(f.row, c, db.onExtend)
    case None =>
      if db.queryFails then (f, QueryError)
      else
        match f.row
        case Some(minSeq) => Issue(f.row, Counter(minSeq, minSeq), db.onExtend)
        case None =>
          var row := Written(None, FIRST_SEQ + SEQ_STEP, db.onInit);
          if !db.onInit.Done? then (Flag(row, None), InitError)
          else Issue(row, Counter(FIRST_SEQ, FIRST_SEQ + SEQ_STEP), db.onExtend)
  }

  // ----- When a call gives a number -----

  /** The database actions that a call needs in a given state. */
  predicate NeedsQuery(f: Flag) {
    f.mem.None?
  }

  predicate NeedsInit(f: Flag) {
    f.mem.None? && f.row.None?
  }

  /** A block has to be reserved when the one in memory is used up, or when a new process finds a row. */
  predicate NeedsExtend(f: Flag) {
    if f.mem.Some? then f.mem.value.curSeq >= f.mem.value.maxSeq else f.row.Some?
  }

  /** Each action's failure is an error of its own, and a call on which none of the actions it needs fails
      gives the number after the last one in memory, after the stored one, or after the first one. */
  lemma NumberUnlessFailed(f: Flag, db: Database)
    ensures GenSeq(f, db).1 == QueryError <==> NeedsQuery(f) && db.queryFails
    ensures GenSeq(f, db).1 == InitError <==> NeedsInit(f) && !db.queryFails && !db.onInit.Done?
    ensures GenSeq(f, db).1 == ExtendError
       <==> NeedsExtend(f) && !db.onExtend.Done? && (NeedsQuery(f) ==> !db.queryFails)
    ensures GenSeq(f, db).1.Number?
       <==> && (NeedsQuery(f) ==> !db.queryFails) && (NeedsInit(f) ==> db.onInit.Done?)
            && (NeedsExtend(f) ==> db.onExtend.Done?)
    ensures GenSeq(f, db).1.Number? ==>
              GenSeq(f, db).1.n
              == 1 + (if f.mem.Some? then f.mem.value.curSeq else if f.row.Some? then f.row.value else FIRST_SEQ)
  {
  }

  /** How many numbers the process can hand out from memory. */
  function Stock(f: Flag): int {
    if f.mem.Some? then f.mem.value.maxSeq - f.mem.value.curSeq else 0
  }

  /** The replies of consecutive calls of one process. */
  ghost function ReplyAfter(f: Flag, dbs: seq<Database>): Reply
    requires dbs != []
    decreases |dbs|
  {
    if |dbs| == 1 then GenSeq(f, dbs[0]).1 else ReplyAfter(GenSeq(f, dbs[0]).0, dbs[1..])
  }

  /** The stock is handed out whatever the database does, without touching the row. */
  lemma {:induction false} StockNeedsNoDatabase(f: Flag, dbs: seq<Database>)
    requires dbs != [] && |dbs| <= Stock(f)
    ensures ReplyAfter(f, dbs) == Number(f.mem.value.curSeq + |dbs|)
    ensures GenSeq(f, dbs[0]).0.row == f.row && Stock(GenSeq(f, dbs[0]).0) == Stock(f) - 1
    decreases |dbs|
  {
    if |dbs| > 1 {
      StockNeedsNoDatabase(GenSeq(f, dbs[0]).0, dbs[1..]);
    }
  }

  /** A block reserved by a call on an empty stock, or by the first call of all, leaves 999 in stock. */
  lemma BlockIsReserved(f: Flag, db: Database)
    requires GenSeq(f, db).1.Number? && (f.mem.Some? ==> Stock(f) == 0)
    ensures Stock(GenSeq(f, db).0) == SEQ_STEP - 1
    ensures GenSeq(f, db).0.row == Some(GenSeq(f, db).1.n + SEQ_STEP - 1)
  {
  }

  // ----- Runs -----

  datatype Event = Call(flag: string, db: Database) | Crash

  /** What an event does to one flag. */
  function FlagStep(f: Flag, flag: string, e: Event): Flag {
    match e
    case Crash => f.(mem := None)
    case Call(called, db) => if called == flag then GenSeq(f, db).0 else f
  }

  /** The number an event issues for one flag, if any. */
  function Issued(f: Flag, flag: string, e: Event): Option<int> {
    if e.Call? && e.flag == flag && GenSeq(f, e.db).1.Number? then Some(GenSeq(f, e.db).1.n) else None
  }

  ghost function FlagBefore(start: Flag, flag: string, events: seq<Event>, i: nat): Flag
    requires i <= |events|
  {
    if i == 0 then start else FlagStep(FlagBefore(start, flag, events, i - 1), flag, events[i - 1])
  }

  ghost function IssuedAt(start: Flag, flag: string, events: seq<Event>, i: nat): Option<int>
    requires i < |events|
  {
    Issued(FlagBefore(start, flag, events, i), flag, events[i])
  }

  /** A freshly started process over any stored row, or none. */
  ghost predicate Fresh(f: Flag) {
    f.mem.None?
  }

  /** The number below which everything counts as already issued at the start. */
  ghost function Base(f: Flag): int {
    if f.row.Some? then f.row.value else FIRST_SEQ
  }

  /** The last number issued by the first i events. */
  ghost function LastBefore(start: Flag, flag: string, events: seq<Event>, i: nat): int
    requires i <= |events|
  {
    if i == 0 then Base(start)
    else
      var n := IssuedAt(start, flag, events, i - 1);
      if n.Some? then n.value else LastBefore(start, flag, events, i - 1)
  }

  /** A whole block is given up by a crash, and by a first write that takes effect although it fails. */
  ghost predicate LosesBlock(f: Flag, flag: string, e: Event) {
    e.Crash? || (e.flag == flag && f == Flag(None, None) && !e.db.queryFails && e.db.onInit.FailedButDone?)
  }

  /** Blocks given up since the last number was issued. */
  ghost function LostBefore(start: Flag, flag: string, events: seq<Event>, i: nat): nat
    requires i <= |events|
  {
    if i == 0 then 0
    else
      var f := FlagBefore(start, flag, events, i - 1);
      if Issued(f, flag, events[i - 1]).Some? then 0
      else LostBefore(start, flag, events, i - 1) + (if LosesBlock(f, flag, events[i - 1]) then 1 else 0)
  }

  /** The row covers all that was issued, and neither row nor memory runs ahead of the last number by
      more than the blocks given up. */
  ghost predicate Inv(f: Flag, last: int, lost: nat) {
    match f.mem
    case None =>
      if f.row.None? then last == FIRST_SEQ
      else last <= f.row.value <= last + SEQ_STEP * lost
    case Some(c) =>
      && last <= c.curSeq <= last + SEQ_STEP * lost
      && c.curSeq <= c.maxSeq <= c.curSeq + SEQ_STEP
      && f.row.Some?
      && (f.row.value == c.maxSeq || (c.curSeq == c.maxSeq && f.row.value == c.curSeq + SEQ_STEP))
  }

  lemma StepKeepsInv(f: Flag, flag: string, e: Event, last: int, lost: nat)
    requires Inv(f, last, lost)
    ensures var n := Issued(f, flag, e);
            var f' := FlagStep(f, flag, e);
            if n.Some? then
              last < n.value <= last + 1 + SEQ_STEP * lost && Inv(f', n.value, 0)
            else
              Inv(f', last, lost + (if LosesBlock(f, flag, e) then 1 else 0))
  {
  }

  lemma {:induction false} RunKeepsInv(start: Flag, flag: string, events: seq<Event>, i: nat)
    requires Fresh(start) && i <= |events|
    ensures Inv(FlagBefore(start, flag, events, i), LastBefore(start, flag, events, i),
                LostBefore(start, flag, events, i))
  {
    if i > 0 {
      RunKeepsInv(start, flag, events, i - 1);
      StepKeepsInv(FlagBefore(start, flag, events, i - 1), flag, events[i - 1],
                   LastBefore(start, flag, events, i - 1), LostBefore(start, flag, events, i - 1));
    }
  }

  lemma {:induction false} LastOnlyGrows(start: Flag, flag: string, events: seq<Event>, i: nat, j: nat)
    requires Fresh(start) && i <= j <= |events|
    ensures LastBefore(start, flag, events, i) <= LastBefore(start, flag, events, j)
    decreases j - i
  {
    if i < j {
      LastOnlyGrows(start, flag, events, i, j - 1);
      RunKeepsInv(start, flag, events, j - 1);
      StepKeepsInv(FlagBefore(start, flag, events, j - 1), flag, events[j - 1],
                   LastBefore(start, flag, events, j - 1), LostBefore(start, flag, events, j - 1));
    }
  }

  /** No number is issued twice: over any run the numbers of a flag strictly increase. */
  lemma StrictlyIncreasing(start: Flag, flag: string, events: seq<Event>, i: nat, j: nat)
    requires Fresh(start) && i < j < |events|
    requires IssuedAt(start, flag, events, i).Some? && IssuedAt(start, flag, events, j).Some?
    ensures IssuedAt(start, flag, events, i).value < IssuedAt(start, flag, events, j).value
  {
    LastOnlyGrows(start, flag, events, i + 1, j);
    RunKeepsInv(start, flag, events, j);
    StepKeepsInv(FlagBefore(start, flag, events, j), flag, events[j],
                 LastBefore(start, flag, events, j), LostBefore(start, flag, events, j));
  }

  /** At every later moment, crashes included, the stored row is at least every number issued. */
  lemma RowCoversIssued(start: Flag, flag: string, events: seq<Event>, i: nat, j: nat)
    requires Fresh(start) && i < j <= |events| && IssuedAt(start, flag, events, i).Some?
    ensures var row := FlagBefore(start, flag, events, j).row;
            row.Some? && row.value >= IssuedAt(start, flag, events, i).value
  {
    LastOnlyGrows(start, flag, events, i + 1, j);
    RunKeepsInv(start, flag, events, i);
    StepKeepsInv(FlagBefore(start, flag, events, i), flag, events[i],
                 LastBefore(start, flag, events, i), LostBefore(start, flag, events, i));
    RunKeepsInv(start, flag, events, j);
    RowStays(start, flag, events, i + 1, j);
  }

  lemma {:induction false} RowStays(start: Flag, flag: string, events: seq<Event>, i: nat, j: nat)
    requires i <= j <= |events| && FlagBefore(start, flag, events, i).row.Some?
    ensures FlagBefore(start, flag, events, j).row.Some?
    decreases j - i
  {
    if i < j {
      RowStays(start, flag, events, i, j - 1);
    }
  }

  /** Between two consecutive numbers at most one block of 1000 is skipped for each block given up; in
      particular none is skipped while the process lives. */
  lemma SkipsAtMostLostBlocks(start: Flag, flag: string, events: seq<Event>, j: nat)
    requires Fresh(start) && j < |events| && IssuedAt(start, flag, events, j).Some?
    ensures var last := LastBefore(start, flag, events, j);
            last < IssuedAt(start, flag, events, j).value <= last + 1 + SEQ_STEP * LostBefore(start, flag, events, j)
  {
    RunKeepsInv(start, flag, events, j);
    StepKeepsInv(FlagBefore(start, flag, events, j), flag, events[j],
                 LastBefore(start, flag, events, j), LostBefore(start, flag, events, j));
  }

  /** A first write whose failure is only apparent happens at most once, before anything is issued. */
  lemma LostInitOnlyFirst(start: Flag, flag: string, events: seq<Event>, i: nat, j: nat)
    requires Fresh(start) && i < j < |events|
    requires IssuedAt(start, flag, events, i).Some?
             || (events[i].Call? && LosesBlock(FlagBefore(start, flag, events, i), flag, events[i]))
    ensures events[j].Call? ==> !LosesBlock(FlagBefore(start, flag, events, j), flag, events[j])
  {
    RunKeepsInv(start, flag, events, i);
    StepKeepsInv(FlagBefore(start, flag, events, i), flag, events[i],
                 LastBefore(start, flag, events, i), LostBefore(start, flag, events, i));
    assert FlagBefore(start, flag, events, i + 1) == FlagStep(FlagBefore(start, flag, events, i), flag, events[i]);
    RowStays(start, flag, events, i + 1, j);
  }
}

/** The allocator object: the process's map of counters, updated in place, and the table. */
module SequenceObject {
  import opened Options
  import opened SequenceMachine

  class Seq {
    var curSeq: int
    var maxSeq: int

    constructor (curSeq: int, maxSeq: int)
      ensures this.curSeq == curSeq && this.maxSeq == maxSeq
    {
      this.curSeq := curSeq;
      this.maxSeq := maxSeq;
    }
  }

  class Context {
    var seqMap: map<string, Seq>
    var rows: map<string, int>

    /** Every flag has a counter of its own. */
    ghost predicate Valid()
      reads this
    {
      forall f, g :: f in seqMap && g in seqMap && seqMap[f] == seqMap[g] ==> f == g
    }

    function View(flag: string): Flag
      reads this, seqMap.Values
    {
      Flag(if flag in rows then Some(rows[flag]) else None,
           if flag in seqMap then Some(Counter(seqMap[flag].curSeq, seqMap[flag].maxSeq)) else None)
    }

    constructor ()
      ensures Valid() && forall flag :: View(flag) == Flag(None, None)
    {
      seqMap := map[];
      rows := map[];
    }

    /** Insert or update the row; the caller sees whether that succeeded. */
    method AddOrUpdateSeq(flag: string, minSeq: int, write: Write) returns (ok: bool)
      modifies this`rows
      ensures ok <==> write.Done?
      ensures rows == if write.Failed? then old(rows) else old(rows)[flag := minSeq]
    {
      if !write.Failed? {
        rows := rows[flag := minSeq];
      }
      ok := write.Done?;
    }

    method GenSeq(flag: string, db: Database) returns (reply: Reply)
      requires Valid()
      modifies this, seqMap.Values
      ensures Valid()
      ensures (View(flag), reply) == SequenceMachine.GenSeq(old(View(flag)), db)
      ensures forall g :: View(g) == FlagStep(old(View(g)), g, Call(flag, db))
    {
      var c: Seq;
      if flag in seqMap {
        c := seqMap[flag];
      } else {
        if db.queryFails {
          return QueryError;
        }
        if flag !in rows {
          var ok := AddOrUpdateSeq(flag, FIRST_SEQ + SEQ_STEP, db.onInit);
          if !ok {
            return InitError;
          }
          c := new Seq(FIRST_SEQ, FIRST_SEQ + SEQ_STEP);
        } else {
          c := new Seq(rows[flag], rows[flag]);
        }
        seqMap := seqMap[flag := c];
      }
      if c.curSeq >= c.maxSeq {
        var ok := AddOrUpdateSeq(flag, c.curSeq + SEQ_STEP, db.onExtend);
        if !ok {
          return ExtendError;
        }
        c.maxSeq := c.maxSeq + SEQ_STEP;
      }
      c.curSeq := c.curSeq + 1;
      reply := Number(c.curSeq);
    }

    /** The process dies and a new one starts: memory is lost, the table stays. */
    method Restart()
      requires Valid()
      modifies this`seqMap
      ensures Valid()
      ensures forall g :: View(g) == FlagStep(old(View(g)), g, Crash)
    {
      seqMap := map[];
    }
  }
}
