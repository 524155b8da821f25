/**
 The Kafka processor: a bounded worker pool over one fetched block, and the
 poll-process-commit loop around it with crashes and replays.

 The pool is a state machine whose steps are the channel hand-overs and the
 returns of the goroutines, in any interleaving.
 */
module Processor {
  import opened Options

  const DEFAULT_WORKERS := 64
  const MAXIMUM_WORKERS := 256

  function Min(a: nat, b: nat): nat {
    if a < b then a else b
  }

  function NormalizeWorkers(value: int): (n: nat)
    ensures 1 <= n <= MAXIMUM_WORKERS
  {
    if value <= 0 then DEFAULT_WORKERS else if value > MAXIMUM_WORKERS then MAXIMUM_WORKERS else value
  }

  /** Never more workers than records. */
  function WorkersFor(configured: int, records: nat): (n: nat)
    requires records > 0
    ensures 1 <= n <= records && n <= MAXIMUM_WORKERS
    ensures n == (if configured <= 0 then Min(64, records) else Min(Min(configured, 256), records))
  {
    var n := NormalizeWorkers(configured);
    if n > records then records else n
  }

  // ----- the pool -----

  datatype Worker = Idle | Holding(record: nat) | Working(record: nat) | Exited

  datatype Result = Success | Failed(record: nat) | ContextError

  /** The dispatching goroutine: sending, waiting for the workers after closing the channel, or returned. */
  datatype Dispatcher = Sending | Closed | Returned(result: Result)

  datatype Pool = Pool(
    records: nat, sent: nat, dispatcher: Dispatcher, workers: seq<Worker>,
    cancelled: bool, parentCancelled: bool, firstError: Option<nat>,
    handled: set<nat>, abandoned: set<nat>)

  datatype Event =
    | HandOver(worker: nat)   // the unbuffered channel passes the next record to an idle worker
    | StopSending             // the select sees the cancelled context
    | EndSending              // every record was sent; the channel is closed
    | Begin(worker: nat)      // a worker checks the context and starts or gives up
    | Finish(worker: nat, ok: bool)  // processRecord returns
    | Drain(worker: nat)      // an idle worker sees the closed channel
    | Return                  // the wait group is done
    | CancelParent            // the caller's context ends

  function NewPool(records: nat, workers: nat): Pool {
    Pool(records, 0, Sending, seq(workers, _ => Idle), false, false, None, {}, {})
  }

  function Put(p: Pool, w: nat, state: Worker): Pool
    requires w < |p.workers|
  {
    p.(workers := p.workers[w := state])
  }

  predicate AllExited(p: Pool) {
    forall w :: 0 <= w < |p.workers| ==> p.workers[w].Exited?
  }

  function Verdict(p: Pool): Result {
    if p.firstError.Some? then Failed(p.firstError.value) else if p.parentCancelled then ContextError else Success
  }

  /** One step, when it is enabled. */
  function Step(p: Pool, e: Event): Option<Pool> {
    match e
    case HandOver(w) =>
      if p.dispatcher.Sending? && p.sent < p.records && w < |p.workers| && p.workers[w].Idle?
      then Some(Put(p, w, Holding(p.sent)).(sent := p.sent + 1)) else None
    case StopSending =>
      if p.dispatcher.Sending? && p.sent < p.records && p.cancelled then Some(p.(dispatcher := Closed)) else None
    case EndSending =>
      if p.dispatcher.Sending? && p.sent == p.records then Some(p.(dispatcher := Closed)) else None
    case Begin(w) =>
      if !(w < |p.workers| && p.workers[w].Holding?) then None
      else if p.cancelled then Some(Put(p, w, Exited).(abandoned := p.abandoned + {p.workers[w].record}))
      else Some(Put(p, w, Working(p.workers[w].record)))
    case Finish(w, ok) =>
      if !(w < |p.workers| && p.workers[w].Working?) then None
      else
        var r := p.workers[w].record;
        if ok then Some(Put(p, w, Idle).(handled := p.handled + {r}))
        else Some(Put(p, w, Exited).(
                    abandoned := p.abandoned + {r}, cancelled := true,
                    firstError := if p.firstError.Some? then p.firstError else Some(r)))
    case Drain(w) =>
      if w < |p.workers| && p.workers[w].Idle? && p.dispatcher.Closed? then Some(Put(p, w, Exited)) else None
    case Return =>
      if p.dispatcher.Closed? && AllExited(p) then Some(p.(dispatcher := Returned(Verdict(p)))) else None
    case CancelParent =>
      Some(p.(parentCancelled := true, cancelled := true))
  }

  // ----- where every record is -----

  function Carried(w: Worker): multiset<nat> {
    if w.Holding? || w.Working? then multiset{w.record} else multiset{}
  }

  /** The records the workers have in hand. */
  function InHand(ws: seq<Worker>): multiset<nat> {
    if ws == [] then multiset{} else Carried(ws[0]) + InHand(ws[1..])
  }

  lemma InHandCons(w: Worker, rest: seq<Worker>)
    ensures InHand([w] + rest) == Carried(w) + InHand(rest)
  {
    assert ([w] + rest)[1..] == rest;
  }

  lemma AddInFront(c: multiset<nat>, x: multiset<nat>, a: multiset<nat>, y: multiset<nat>, b: multiset<nat>)
    requires x + a == y + b
    ensures (c + x) + a == (c + y) + b
  {
    assert (c + x) + a == c + (x + a);
    assert (c + y) + b == c + (y + b);
  }

  lemma {:induction false} InHandUpdate(ws: seq<Worker>, w: nat, state: Worker)
    requires w < |ws|
    ensures InHand(ws[w := state]) + Carried(ws[w]) == InHand(ws) + Carried(state)
    ensures Carried(ws[w]) <= InHand(ws)
  {
    hide InHand, Carried;
    var first, rest := ws[0], ws[1..];
    assert ws == [first] + rest;
    InHandCons(first, rest);
    if w == 0 {
      assert ws[w := state] == [state] + rest;
      InHandCons(state, rest);
    } else {
      assert ws[w := state] == [first] + rest[w - 1 := state];
      InHandCons(first, rest[w - 1 := state]);
      InHandUpdate(rest, w - 1, state);
      AddInFront(Carried(first), InHand(rest[w - 1 := state]), Carried(ws[w]), InHand(rest), Carried(state));
    }
  }

  lemma {:induction false} NothingInHand(ws: seq<Worker>)
    requires forall w :: 0 <= w < |ws| ==> Carried(ws[w]) == multiset{}
    ensures InHand(ws) == multiset{}
  {
    if ws != [] {
      NothingInHand(ws[1..]);
    }
  }

  /** Each of the records below n, once. */
  function Below(n: nat): multiset<nat> {
    if n == 0 then multiset{} else Below(n - 1) + multiset{n - 1}
  }

  lemma {:induction false} BelowCounts(n: nat, r: nat)
    ensures Below(n)[r] == if r < n then 1 else 0
  {
    if n > 0 {
      BelowCounts(n - 1, r);
    }
  }

  /** Every record handed out is in exactly one place: finished, given up, or with one worker. */
  ghost predicate Accounted(p: Pool) {
    multiset(p.handled) + multiset(p.abandoned) + InHand(p.workers) == Below(p.sent)
  }

  /** Records are given up, sending stops early and workers leave early only after a cancellation with a cause. */
  ghost predicate Caused(p: Pool) {
    && p.sent <= p.records
    && (p.abandoned != {} ==> p.cancelled)
    && (p.cancelled ==> p.firstError.Some? || p.parentCancelled)
    && (!p.dispatcher.Sending? && p.sent < p.records ==> p.cancelled)
    && (p.dispatcher.Sending? && !p.cancelled ==> forall w :: 0 <= w < |p.workers| ==> !p.workers[w].Exited?)
  }

  ghost predicate Inv(p: Pool) {
    Accounted(p) && Caused(p)
  }

  lemma NewPoolInv(records: nat, workers: nat)
    ensures Inv(NewPool(records, workers))
  {
    NothingInHand(NewPool(records, workers).workers);
  }

  /** A record in a worker's hand is in no other place. */
  lemma CarriedIsElsewhereAbsent(p: Pool, w: nat)
    requires Accounted(p) && w < |p.workers| && Carried(p.workers[w]) != multiset{}
    ensures p.workers[w].record < p.sent
    ensures p.workers[w].record !in p.handled && p.workers[w].record !in p.abandoned
    ensures InHand(p.workers)[p.workers[w].record] == 1
  {
    InHandUpdate(p.workers, w, Idle);
    BelowCounts(p.sent, p.workers[w].record);
  }

  lemma BelowNext(n: nat)
    ensures Below(n + 1) == Below(n) + multiset{n}
  {
  }

  lemma HandOverAccounted(p: Pool, w: nat)
    requires Accounted(p) && Step(p, HandOver(w)).Some?
    ensures Accounted(Step(p, HandOver(w)).value)
  {
    hide InHand, Below, AllExited;
    InHandUpdate(p.workers, w, Holding(p.sent));
    BelowNext(p.sent);
    var one := multiset{p.sent};
    var before, after := InHand(p.workers), InHand(p.workers[w := Holding(p.sent)]);
    assert after == before + one;
    assert multiset(p.handled) + multiset(p.abandoned) + after == (multiset(p.handled) + multiset(p.abandoned) + before) + one;
  }

  /** A worker lets go of its record, which goes to `handled` or to `abandoned`. */
  lemma LetGoAccounted(p: Pool, w: nat, state: Worker, ok: bool)
    requires Accounted(p) && w < |p.workers| && Carried(p.workers[w]) != multiset{} && Carried(state) == multiset{}
    ensures var r := p.workers[w].record;
            var h, a := if ok then p.handled + {r} else p.handled, if ok then p.abandoned else p.abandoned + {r};
            multiset(h) + multiset(a) + InHand(p.workers[w := state]) == Below(p.sent)
  {
    hide InHand, Below;
    var r := p.workers[w].record;
    InHandUpdate(p.workers, w, state);
    CarriedIsElsewhereAbsent(p, w);
    var h, a, after := multiset(p.handled), multiset(p.abandoned), InHand(p.workers[w := state]);
    assert InHand(p.workers) == after + multiset{r};
    assert (h + multiset{r}) + a + after == h + a + (after + multiset{r});
    assert h + (a + multiset{r}) + after == h + a + (after + multiset{r});
  }

  /** A worker changes state with the same record, or none, in hand. */
  lemma KeepAccounted(ws: seq<Worker>, w: nat, state: Worker)
    requires w < |ws| && Carried(ws[w]) == Carried(state)
    ensures InHand(ws[w := state]) == InHand(ws)
  {
    hide InHand, Carried;
    InHandUpdate(ws, w, state);
    var c, x, y := Carried(state), InHand(ws[w := state]), InHand(ws);
    assert (x + c) - c == x && (y + c) - c == y;
  }

  lemma BeginAccounted(p: Pool, w: nat)
    requires Accounted(p) && Step(p, Begin(w)).Some?
    ensures Accounted(Step(p, Begin(w)).value)
  {
    hide InHand, Below, AllExited, Verdict;
    if p.cancelled {
      LetGoAccounted(p, w, Exited, false);
    } else {
      KeepAccounted(p.workers, w, Working(p.workers[w].record));
    }
  }

  lemma FinishAccounted(p: Pool, w: nat, ok: bool)
    requires Accounted(p) && Step(p, Finish(w, ok)).Some?
    ensures Accounted(Step(p, Finish(w, ok)).value)
  {
    hide InHand, Below, AllExited, Verdict;
    LetGoAccounted(p, w, if ok then Idle else Exited, ok);
  }

  lemma DrainAccounted(p: Pool, w: nat)
    requires Accounted(p) && Step(p, Drain(w)).Some?
    ensures Accounted(Step(p, Drain(w)).value)
  {
    hide InHand, Below, AllExited, Verdict;
    KeepAccounted(p.workers, w, Exited);
  }

  lemma StepKeepsAccounted(p: Pool, e: Event)
    requires Accounted(p) && Step(p, e).Some?
    ensures Accounted(Step(p, e).value)
  {
    hide InHand, Below, AllExited, Verdict;
    match e
    case HandOver(w) => HandOverAccounted(p, w);
    case Begin(w) => BeginAccounted(p, w);
    case Finish(w, ok) => FinishAccounted(p, w, ok);
    case Drain(w) => DrainAccounted(p, w);
    case _ =>
  }

  lemma StepKeepsInv(p: Pool, e: Event)
    requires Inv(p) && Step(p, e).Some?
    ensures Inv(Step(p, e).value)
  {
    hide Accounted, Verdict;
    StepKeepsAccounted(p, e);
  }

  /** Returning success means that every record of the block was handled. */
  lemma SuccessMeansAllHandled(p: Pool)
    requires Inv(p) && p.dispatcher == Closed && AllExited(p)
    ensures Verdict(p) == Success ==> forall r :: 0 <= r < p.records ==> r in p.handled
  {
    NothingInHand(p.workers);
    if Verdict(p) == Success {
      forall r | 0 <= r < p.records
        ensures r in p.handled
      {
        BelowCounts(p.sent, r);
      }
    }
  }

  // ----- no deadlock, and every run ends -----

  /** Until it returns, the pool can always take a step of its own. */
  lemma NeverStuck(p: Pool)
    requires Inv(p) && |p.workers| > 0 && !p.dispatcher.Returned?
    ensures exists e: Event :: !e.CancelParent? && Step(p, e).Some?
  {
    if w :| 0 <= w < |p.workers| && p.workers[w].Holding? {
      assert Step(p, Begin(w)).Some?;
    } else if w :| 0 <= w < |p.workers| && p.workers[w].Working? {
      assert Step(p, Finish(w, true)).Some?;
    } else if p.dispatcher.Sending? {
      if p.sent == p.records {
        assert Step(p, EndSending).Some?;
      } else if p.cancelled {
        assert Step(p, StopSending).Some?;
      } else {
        assert p.workers[0].Idle?;
        assert Step(p, HandOver(0)).Some?;
      }
    } else if w :| 0 <= w < |p.workers| && p.workers[w].Idle? {
      assert Step(p, Drain(w)).Some?;
    } else {
      assert Step(p, Return).Some?;
    }
  }

  function Weight(w: Worker): nat {
    match w
    case Idle => 1
    case Holding(_) => 3
    case Working(_) => 2
    case Exited => 0
  }

  function TotalWeight(ws: seq<Worker>): nat {
    if ws == [] then 0 else Weight(ws[0]) + TotalWeight(ws[1..])
  }

  lemma {:induction false} TotalWeightUpdate(ws: seq<Worker>, w: nat, state: Worker)
    requires w < |ws|
    ensures TotalWeight(ws[w := state]) == TotalWeight(ws) - Weight(ws[w]) + Weight(state)
  {
    if w == 0 {
      assert ws[0 := state][1..] == ws[1..];
    } else {
      assert ws[w := state][1..] == ws[1..][w - 1 := state];
      TotalWeightUpdate(ws[1..], w - 1, state);
    }
  }

  function Rank(p: Pool): nat
    requires p.sent <= p.records
  {
    4 * (p.records - p.sent) + TotalWeight(p.workers)
    + (match p.dispatcher case Sending => 2 case Closed => 1 case Returned(_) => 0)
  }

  lemma StepLowersRank(p: Pool, e: Event)
    requires Inv(p) && Step(p, e).Some?
    ensures Inv(Step(p, e).value)
    ensures if e.CancelParent? then Rank(Step(p, e).value) == Rank(p) else Rank(Step(p, e).value) < Rank(p)
  {
    hide Accounted, Verdict, TotalWeight;
    StepKeepsInv(p, e);
    match e
    case HandOver(w) => TotalWeightUpdate(p.workers, w, Holding(p.sent));
    case Begin(w) =>
      TotalWeightUpdate(p.workers, w, if p.cancelled then Exited else Working(p.workers[w].record));
    case Finish(w, ok) => TotalWeightUpdate(p.workers, w, if ok then Idle else Exited);
    case Drain(w) => TotalWeightUpdate(p.workers, w, Exited);
    case _ =>
  }

  /** The pool after a list of events, or None when one of them was not enabled. */
  function RunPool(p: Pool, events: seq<Event>): Option<Pool>
    decreases |events|
  {
    if events == [] then Some(p)
    else
      match Step(p, events[0])
      case None => None
      case Some(q) => RunPool(q, events[1..])
  }

  function OwnSteps(events: seq<Event>): nat {
    if events == [] then 0 else (if events[0].CancelParent? then 0 else 1) + OwnSteps(events[1..])
  }

  /** In any interleaving the pool takes at most as many steps as its initial rank. */
  lemma {:induction false} RunsAreBounded(p: Pool, events: seq<Event>)
    requires Inv(p)
    ensures forall q :: RunPool(p, events) == Some(q) ==> Inv(q) && Rank(q) + OwnSteps(events) <= Rank(p)
    decreases |events|
  {
    if events != [] && Step(p, events[0]).Some? {
      StepLowersRank(p, events[0]);
      RunsAreBounded(Step(p, events[0]).value, events[1..]);
    }
  }

  /** How often a record is finished, given up or in a worker's hand. */
  ghost function Places(p: Pool, r: nat): nat {
    multiset(p.handled)[r] + multiset(p.abandoned)[r] + InHand(p.workers)[r]
  }

  /**
   processRecords: whatever the interleaving, each record is handed out at most
   once, a run that cannot continue has returned, and it returned success only
   if every record was handled.
   */
  lemma ProcessRecordsIsSafe(records: nat, workers: nat, events: seq<Event>)
    requires 0 < workers
    ensures forall p :: RunPool(NewPool(records, workers), events) == Some(p) ==>
            && (forall r: nat :: Places(p, r) == if r < p.sent then 1 else 0)
            && (!p.dispatcher.Returned? ==> exists e: Event :: !e.CancelParent? && Step(p, e).Some?)
            && (p.dispatcher == Returned(Success) ==> forall r :: 0 <= r < records ==> r in p.handled)
  {
    NewPoolInv(records, workers);
    RunReaches(NewPool(records, workers), events);
    forall p | RunPool(NewPool(records, workers), events) == Some(p)
      ensures (forall r: nat :: Places(p, r) == if r < p.sent then 1 else 0)
              && (!p.dispatcher.Returned? ==> exists e: Event :: !e.CancelParent? && Step(p, e).Some?)
    {
      forall r: nat
        ensures Places(p, r) == if r < p.sent then 1 else 0
      {
        BelowCounts(p.sent, r);
      }
      if !p.dispatcher.Returned? {
        NeverStuck(p);
      }
    }
  }

  ghost predicate Honest(p: Pool) {
    p.dispatcher == Returned(Success) ==> forall r :: 0 <= r < p.records ==> r in p.handled
  }

  lemma {:induction false} RunReaches(p: Pool, events: seq<Event>)
    requires Inv(p) && Honest(p)
    ensures forall q :: RunPool(p, events) == Some(q) ==>
              Inv(q) && Honest(q) && q.records == p.records && |q.workers| == |p.workers|
    decreases |events|
  {
    if events != [] && Step(p, events[0]).Some? {
      StepKeepsHonest(p, events[0]);
      RunReaches(Step(p, events[0]).value, events[1..]);
    }
  }

  lemma StepKeepsHonest(p: Pool, e: Event)
    requires Inv(p) && Honest(p) && Step(p, e).Some?
    ensures Inv(Step(p, e).value) && Honest(Step(p, e).value)
    ensures Step(p, e).value.records == p.records && |Step(p, e).value.workers| == |p.workers|
  {
    hide Accounted, Caused, Verdict;
    StepKeepsInv(p, e);
    if e.Return? {
      SuccessMeansAllHandled(p);
    }
  }

  // ----- one record -----

  /** How the dependencies answer for one record. */
  datatype Answers = Answers(
    decoded: bool, verified: bool, rawStored: bool, parsed: bool, ingested: bool, published: bool)

  /** What has durably happened, by record. */
  datatype Effects = Effects(raw: set<int>, ingested: set<int>, dead: set<int>)

  predicate Settled(f: Effects, record: int) {
    record in f.dead || (record in f.raw && record in f.ingested)
  }

  function DeadLetter(f: Effects, record: int, a: Answers): (Effects, bool) {
    if a.published then (f.(dead := f.dead + {record}), true) else (f, false)
  }

  function ProcessRecord(f: Effects, record: int, a: Answers): (Effects, bool) {
    if !a.decoded || !a.verified then DeadLetter(f, record, a)
    else if !a.rawStored then (f, false)
    else
      var g := f.(raw := f.raw + {record});
      if !a.parsed || !a.ingested then DeadLetter(g, record, a)
      else (g.(ingested := g.ingested + {record}), true)
  }

  lemma ProcessRecordSettles(f: Effects, record: int, a: Answers)
    ensures var (g, ok) := ProcessRecord(f, record, a);
            && (ok ==> Settled(g, record))
            && forall r :: Settled(f, r) ==> Settled(g, r)
  {
  }

  /** A call a crash cut short, with what it had heard; a question not reached counts as refused. */
  datatype Interrupted = Interrupted(record: int, answers: Answers)

  function AfterCrash(f: Effects, interrupted: seq<Interrupted>): Effects
    decreases |interrupted|
  {
    if interrupted == [] then f
    else AfterCrash(ProcessRecord(f, interrupted[0].record, interrupted[0].answers).0, interrupted[1..])
  }

  lemma {:induction false} CrashKeepsSettled(f: Effects, interrupted: seq<Interrupted>)
    ensures forall r :: Settled(f, r) ==> Settled(AfterCrash(f, interrupted), r)
    decreases |interrupted|
  {
    hide ProcessRecord, Settled;
    if interrupted != [] {
      ProcessRecordSettles(f, interrupted[0].record, interrupted[0].answers);
      CrashKeepsSettled(ProcessRecord(f, interrupted[0].record, interrupted[0].answers).0, interrupted[1..]);
    }
  }

  // ----- the poll-process-commit loop -----

  datatype Session =
    | Polling
    | Pooled(block: seq<int>, pool: Pool)
    | Sequential(block: seq<int>, next: nat)
    | Committing(block: seq<int>)
    | Stopped

  datatype System = System(effects: Effects, committed: set<int>, session: Session)

  datatype Action =
    | Poll(block: seq<int>, configured: int)
    | PollFails
    | PoolStep(event: Event, answers: Answers)
    | NextRecord(answers: Answers)
    | Commit(applied: bool, acknowledged: bool)
    | Crash(interrupted: seq<Interrupted>)  // with what the calls under way had already done
    | Restart

  const INITIAL := System(Effects({}, {}, {}), {}, Stopped)

  /** Starts a block: sequentially with one worker, otherwise with a pool. */
  function Start(block: seq<int>, configured: int): Session {
    if block == [] then Polling
    else
      var workers := WorkersFor(configured, |block|);
      if workers == 1 then Sequential(block, 0) else Pooled(block, NewPool(|block|, workers))
  }

  function AfterPool(block: seq<int>, p: Pool): Session {
    match p.dispatcher
    case Returned(Success) => Committing(block)
    case Returned(_) => Stopped
    case _ => Pooled(block, p)
  }

  /** A call of processRecord for this record is under way. */
  predicate InProgress(session: Session, record: int) {
    match session
    case Pooled(block, p) =>
      exists w :: 0 <= w < |p.workers| && p.workers[w].Working? && p.workers[w].record < |block| && block[p.workers[w].record] == record
    case Sequential(block, i) => i < |block| && block[i] == record
    case _ => false
  }

  function Act(s: System, a: Action): Option<System> {
    match (a, s.session)
    case (Poll(block, configured), Polling) => Some(s.(session := Start(block, configured)))
    case (PollFails, Polling) => Some(s.(session := Stopped))
    case (PoolStep(e, answers), Pooled(block, p)) =>
      var q := Step(p, e);
      if q.None? then None
      else if !e.Finish? then Some(s.(session := AfterPool(block, q.value)))
      else
        var r := p.workers[e.worker].record;
        if r >= |block| then None
        else
          var (effects, ok) := ProcessRecord(s.effects, block[r], answers);
          if ok != e.ok then None
          else Some(s.(effects := effects, session := AfterPool(block, q.value)))
    case (NextRecord(answers), Sequential(block, i)) =>
      if i >= |block| then Some(s.(session := Committing(block)))
      else
        var (effects, ok) := ProcessRecord(s.effects, block[i], answers);
        Some(s.(effects := effects, session := if ok then Sequential(block, i + 1) else Stopped))
    case (Commit(applied, acknowledged), Committing(block)) =>
      if acknowledged && !applied then None
      else
        Some(s.(committed := if applied then s.committed + (set r | r in block) else s.committed,
                session := if acknowledged then Polling else Stopped))
    case (Crash(interrupted), _) =>
      if forall c :: c in interrupted ==> InProgress(s.session, c.record)
      then Some(s.(effects := AfterCrash(s.effects, interrupted), session := Stopped)) else None
    case (Restart, Stopped) => Some(s.(session := Polling))
    case _ => None
  }

  ghost predicate SessionOk(s: System) {
    match s.session
    case Pooled(block, p) =>
      && Inv(p) && p.records == |block| && !p.dispatcher.Returned?
      && forall r :: r in p.handled ==> r < |block| && Settled(s.effects, block[r])
    case Sequential(block, i) => i <= |block| && forall r :: 0 <= r < i ==> Settled(s.effects, block[r])
    case Committing(block) => forall r :: r in block ==> Settled(s.effects, r)
    case _ => true
  }

  ghost predicate Safe(s: System) {
    SessionOk(s) && forall r :: r in s.committed ==> Settled(s.effects, r)
  }

  lemma PoolStepKeepsSafe(s: System, a: Action)
    requires Safe(s) && a.PoolStep? && s.session.Pooled? && Act(s, a).Some?
    ensures Safe(Act(s, a).value)
  {
    hide Inv, ProcessRecord, Settled;
    var p, block := s.session.pool, s.session.block;
    StepKeepsHonest(p, a.event);
    if a.event.Finish? {
      ProcessRecordSettles(s.effects, block[p.workers[a.event.worker].record], a.answers);
    }
  }

  lemma ActKeepsSafe(s: System, a: Action)
    requires Safe(s)
    ensures forall t :: Act(s, a) == Some(t) ==> Safe(t)
  {
    hide Inv, Step, ProcessRecord;
    match (a, s.session)
    case (Poll(block, configured), Polling) =>
      if block != [] {
        NewPoolInv(|block|, WorkersFor(configured, |block|));
      }
    case (PoolStep(e, answers), Pooled(block, p)) =>
      if Act(s, a).Some? {
        PoolStepKeepsSafe(s, a);
      }
    case (NextRecord(answers), Sequential(block, i)) =>
      if i < |block| {
        ProcessRecordSettles(s.effects, block[i], answers);
      }
    case (Crash(interrupted), _) => CrashKeepsSettled(s.effects, interrupted);
    case _ =>
  }

  function Execute(s: System, actions: seq<Action>): Option<System>
    decreases |actions|
  {
    if actions == [] then Some(s)
    else
      match Act(s, actions[0])
      case None => None
      case Some(t) => Execute(t, actions[1..])
  }

  lemma {:induction false} ExecuteKeepsSafe(s: System, actions: seq<Action>)
    requires Safe(s)
    ensures forall t :: Execute(s, actions) == Some(t) ==> Safe(t)
    decreases |actions|
  {
    if actions != [] && Act(s, actions[0]).Some? {
      ActKeepsSafe(s, actions[0]);
      ExecuteKeepsSafe(Act(s, actions[0]).value, actions[1..]);
    }
  }

  /**
   Over every run with crashes and replays, each committed record was either
   dead-lettered or both raw-persisted and ingested.
   */
  lemma CommittedRecordsAreSettled(actions: seq<Action>)
    requires Execute(INITIAL, actions).Some?
    ensures var s := Execute(INITIAL, actions).value;
            forall r :: r in s.committed ==> r in s.effects.dead || (r in s.effects.raw && r in s.effects.ingested)
  {
    ExecuteKeepsSafe(INITIAL, actions);
  }
}
