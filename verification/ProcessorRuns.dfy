/**
 The processor over whole runs: exactly which records are stored, ingested and
 dead-lettered, exactly when a block succeeds, and that it can.
 */
module ProcessorRuns {
  import opened Options
  import opened Processor

  // ----- one record -----

  /** The envelope decodes, is authentic and was stored. */
  predicate Stores(x: Answers) {
    x.decoded && x.verified && x.rawStored
  }

  predicate Ingests(x: Answers) {
    Stores(x) && x.parsed && x.ingested
  }

  /** Refused at the envelope, or by the parser or the pipeline once stored; and the dead letter was published. */
  predicate Buries(x: Answers) {
    x.published && ((x.decoded && x.verified) ==> Stores(x) && !Ingests(x))
  }

  /** What one call does, to which record, and what it reports. */
  lemma ProcessRecordExactly(f: Effects, record: int, x: Answers)
    ensures var (g, ok) := ProcessRecord(f, record, x);
            && (forall r :: r in g.raw <==> r in f.raw || (r == record && Stores(x)))
            && (forall r :: r in g.ingested <==> r in f.ingested || (r == record && Ingests(x)))
            && (forall r :: r in g.dead <==> r in f.dead || (r == record && Buries(x)))
            && (ok <==> Ingests(x) || Buries(x))
  {
  }

  // ----- runs -----

  /** The answers that calls for record `r` hear in this step. */
  ghost function Heard(s: System, a: Action, r: int): iset<Answers> {
    match (a, s.session)
    case (PoolStep(e, answers), Pooled(block, p)) =>
      if e.Finish? && e.worker < |p.workers| && p.workers[e.worker].Working? && p.workers[e.worker].record < |block|
         && block[p.workers[e.worker].record] == r then iset{answers} else iset{}
    case (NextRecord(answers), Sequential(block, i)) => if i < |block| && block[i] == r then iset{answers} else iset{}
    case (Crash(interrupted), _) => HeardBy(interrupted, r)
    case _ => iset{}
  }

  ghost function HeardBy(interrupted: seq<Interrupted>, r: int): iset<Answers> {
    iset x | Interrupted(r, x) in interrupted
  }

  /** The answers that calls for record `r` hear in a run. */
  ghost function HeardIn(s: System, actions: seq<Action>, r: int): iset<Answers>
    decreases |actions|
  {
    if actions == [] then iset{}
    else
      match Act(s, actions[0])
      case None => iset{}
      case Some(t) => Heard(s, actions[0], r) + HeardIn(t, actions[1..], r)
  }

  datatype Place = RawStore | Pipeline | DeadLetters

  function At(f: Effects, place: Place): set<int> {
    match place
    case RawStore => f.raw
    case Pipeline => f.ingested
    case DeadLetters => f.dead
  }

  /** The answers that bring a record to a place. */
  predicate Brings(x: Answers, place: Place) {
    match place
    case RawStore => Stores(x)
    case Pipeline => Ingests(x)
    case DeadLetters => Buries(x)
  }

  /** What became of record `r` is exactly what the calls did that heard these answers. */
  ghost predicate Earned(f: Effects, g: Effects, r: int, heard: iset<Answers>) {
    forall place :: r in At(g, place) <==> r in At(f, place) || exists x :: x in heard && Brings(x, place)
  }

  lemma EarnedThen(f: Effects, g: Effects, h: Effects, r: int, a: iset<Answers>, b: iset<Answers>)
    requires Earned(f, g, r, a) && Earned(g, h, r, b)
    ensures Earned(f, h, r, a + b)
  {
    hide Brings;
    assert forall x :: x in a + b <==> x in a || x in b;
  }

  lemma CallEarns(f: Effects, record: int, x: Answers, r: int)
    ensures Earned(f, ProcessRecord(f, record, x).0, r, if r == record then iset{x} else iset{})
  {
    hide ProcessRecord, Stores, Ingests, Buries;
    ProcessRecordExactly(f, record, x);
    assert x in iset{x};
  }

  lemma {:induction false} CrashEarns(f: Effects, interrupted: seq<Interrupted>, r: int)
    ensures Earned(f, AfterCrash(f, interrupted), r, HeardBy(interrupted, r))
    decreases |interrupted|
  {
    hide ProcessRecord, Earned;
    if interrupted == [] {
      assert HeardBy(interrupted, r) == iset{};
      NothingEarned(f, r);
    } else {
      var first, rest := interrupted[0], interrupted[1..];
      var g := ProcessRecord(f, first.record, first.answers).0;
      var one := if r == first.record then iset{first.answers} else iset{};
      CallEarns(f, first.record, first.answers, r);
      CrashEarns(g, rest, r);
      EarnedThen(f, g, AfterCrash(g, rest), r, one, HeardBy(rest, r));
      assert interrupted == [first] + rest;
      assert HeardBy(interrupted, r) == one + HeardBy(rest, r);
    }
  }

  lemma NothingEarned(f: Effects, r: int)
    ensures Earned(f, f, r, iset{})
  {
  }

  lemma StepEarns(s: System, a: Action, r: int)
    ensures forall t :: Act(s, a) == Some(t) ==> Earned(s.effects, t.effects, r, Heard(s, a, r))
  {
    hide ProcessRecord, Earned, Step, AfterCrash;
    NothingEarned(s.effects, r);
    match (a, s.session)
    case (PoolStep(e, answers), Pooled(block, p)) =>
      if e.Finish? && e.worker < |p.workers| && p.workers[e.worker].Working? && p.workers[e.worker].record < |block| {
        CallEarns(s.effects, block[p.workers[e.worker].record], answers, r);
      } else if e.Finish? && Step(p, e).Some? {
        FinishNeedsWorking(p, e);
      }
    case (NextRecord(answers), Sequential(block, i)) =>
      if i < |block| {
        CallEarns(s.effects, block[i], answers, r);
      }
    case (Crash(interrupted), _) => CrashEarns(s.effects, interrupted, r);
    case _ =>
  }

  lemma FinishNeedsWorking(p: Pool, e: Event)
    requires e.Finish? && Step(p, e).Some?
    ensures e.worker < |p.workers| && p.workers[e.worker].Working?
  {
  }

  lemma {:induction false} RunEarns(s: System, actions: seq<Action>, r: int)
    ensures forall t :: Execute(s, actions) == Some(t) ==> Earned(s.effects, t.effects, r, HeardIn(s, actions, r))
    decreases |actions|
  {
    hide Earned, Act, Heard;
    if actions == [] {
      NothingEarned(s.effects, r);
    } else if Act(s, actions[0]).Some? {
      var next := Act(s, actions[0]).value;
      StepEarns(s, actions[0], r);
      RunEarns(next, actions[1..], r);
      forall t | Execute(s, actions) == Some(t)
        ensures Earned(s.effects, t.effects, r, HeardIn(s, actions, r))
      {
        EarnedThen(s.effects, next.effects, t.effects, r, Heard(s, actions[0], r), HeardIn(next, actions[1..], r));
      }
    }
  }

  /**
   Over every run with crashes in the middle of calls and replays: a record is
   raw-persisted, ingested or dead-lettered if and only if some call for it heard
   the answers that call for it.
   */
  lemma EffectsAreEarned(actions: seq<Action>, r: int)
    requires Execute(INITIAL, actions).Some?
    ensures forall place :: r in At(Execute(INITIAL, actions).value.effects, place) <==>
              exists x :: x in HeardIn(INITIAL, actions, r) && Brings(x, place)
  {
    RunEarns(INITIAL, actions, r);
  }

  /**
   A record that never passed authentication is neither raw-persisted nor ingested;
   one that no call dead-lettered is ingested before it is committed.
   */
  lemma RefusedOrIngested(actions: seq<Action>, r: int)
    ensures forall s :: Execute(INITIAL, actions) == Some(s) ==>
            var heard := HeardIn(INITIAL, actions, r);
            && ((forall x :: x in heard ==> !x.verified) ==> r !in s.effects.raw && r !in s.effects.ingested)
            && (r in s.committed && (forall x :: x in heard ==> !Buries(x)) ==> r in s.effects.raw && r in s.effects.ingested)
  {
    if Execute(INITIAL, actions).Some? {
      EffectsAreEarned(actions, r);
      CommittedRecordsAreSettled(actions);
      var e := Execute(INITIAL, actions).value.effects;
      assert At(e, RawStore) == e.raw && At(e, Pipeline) == e.ingested && At(e, DeadLetters) == e.dead;
    }
  }

  // ----- when a block succeeds -----

  lemma {:induction false} RunPoolAppend(p: Pool, a: seq<Event>, b: seq<Event>)
    requires RunPool(p, a).Some?
    ensures RunPool(p, a + b) == RunPool(RunPool(p, a).value, b)
    decreases |a|
  {
    if a == [] {
      assert a + b == b;
    } else {
      assert (a + b)[1..] == a[1..] + b;
      RunPoolAppend(Step(p, a[0]).value, a[1..], b);
    }
  }

  predicate IsFailure(e: Event) {
    e.Finish? && !e.ok
  }

  lemma StepRecordsCause(p: Pool, e: Event)
    ensures forall q :: Step(p, e) == Some(q) ==>
              && (q.firstError.Some? <==> p.firstError.Some? || IsFailure(e))
              && (q.parentCancelled <==> p.parentCancelled || e.CancelParent?)
  {
  }

  /** The pool remembers exactly whether a record failed and whether the caller cancelled. */
  lemma {:induction false} RunRecordsCause(p: Pool, events: seq<Event>)
    ensures forall q :: RunPool(p, events) == Some(q) ==>
              && (q.firstError.Some? <==> p.firstError.Some? || exists e :: e in events && IsFailure(e))
              && (q.parentCancelled <==> p.parentCancelled || exists e :: e in events && e.CancelParent?)
    decreases |events|
  {
    hide Step, IsFailure;
    if events != [] && Step(p, events[0]).Some? {
      StepRecordsCause(p, events[0]);
      RunRecordsCause(Step(p, events[0]).value, events[1..]);
      assert events == [events[0]] + events[1..];
    }
  }

  /** The block succeeds if and only if no record failed and the caller did not cancel before the return. */
  lemma SucceedsExactly(records: nat, workers: nat, events: seq<Event>)
    requires RunPool(NewPool(records, workers), events + [Return]).Some?
    ensures RunPool(NewPool(records, workers), events + [Return]).value.dispatcher == Returned(Success) <==>
            forall e :: e in events ==> !IsFailure(e) && !e.CancelParent?
  {
    hide IsFailure;
    var p := NewPool(records, workers);
    RunPoolPrefix(p, events, [Return]);
    RunPoolAppend(p, events, [Return]);
    RunRecordsCause(p, events);
  }

  lemma {:induction false} RunPoolPrefix(p: Pool, a: seq<Event>, b: seq<Event>)
    requires RunPool(p, a + b).Some?
    ensures RunPool(p, a).Some?
    decreases |a|
  {
    if a != [] {
      assert (a + b)[1..] == a[1..] + b;
      RunPoolPrefix(Step(p, a[0]).value, a[1..], b);
    }
  }

  // ----- a healthy block is committed -----

  const GOOD := Answers(true, true, true, true, true, true)

  ghost predicate Undisturbed(p: Pool) {
    Inv(p) && |p.workers| > 0 && !p.cancelled && p.firstError.None? && !p.parentCancelled
  }

  /** While nothing went wrong there is a step of the pool with which nothing goes wrong. */
  lemma GoodStep(p: Pool)
    requires Undisturbed(p) && !p.dispatcher.Returned?
    ensures exists e :: IsGoodStep(p, e)
  {
    hide Accounted;
    NeverStuck(p);
    var e: Event :| !e.CancelParent? && Step(p, e).Some?;
    if e.Finish? {
      assert IsGoodStep(p, Finish(e.worker, true)) by {
        StepKeepsInv(p, Finish(e.worker, true));
      }
    } else {
      StepKeepsInv(p, e);
      assert IsGoodStep(p, e);
    }
  }

  ghost predicate IsGoodStep(p: Pool, e: Event) {
    && !e.CancelParent? && !IsFailure(e) && Step(p, e).Some? && Undisturbed(Step(p, e).value)
    && Step(p, e).value.records == p.records && |Step(p, e).value.workers| == |p.workers|
    && (Step(p, e).value.dispatcher.Returned? ==> Step(p, e).value.dispatcher == Returned(Success))
  }

  /** From here a run commits every record of the block. */
  ghost predicate CanCommit(s: System, block: seq<int>) {
    exists actions :: Commits(s, block, actions)
  }

  ghost predicate Commits(s: System, block: seq<int>, actions: seq<Action>) {
    && Execute(s, actions).Some? && Execute(s, actions).value.session == Polling
    && Execute(s, actions).value.committed == s.committed + Listed(block)
  }

  function Listed(block: seq<int>): set<int> {
    set r | r in block
  }

  lemma CommitsFirst(s: System, a: Action, block: seq<int>)
    requires Act(s, a).Some? && Act(s, a).value.committed == s.committed && CanCommit(Act(s, a).value, block)
    ensures CanCommit(s, block)
  {
    hide Act;
    var rest :| Commits(Act(s, a).value, block, rest);
    assert ([a] + rest)[1..] == rest;
    assert Commits(s, block, [a] + rest);
  }

  lemma CommittingCommits(s: System, block: seq<int>)
    requires s.session == Committing(block)
    ensures CanCommit(s, block)
  {
    var a := Commit(true, true);
    var t := Act(s, a).value;
    assert [a][1..] == [] && Execute(t, []) == Some(t) && Execute(s, [a]) == Some(t);
    assert Commits(s, block, [a]);
  }

  lemma {:induction false} SequentialCommits(s: System, block: seq<int>, i: nat)
    requires s.session == Sequential(block, i) && i <= |block|
    ensures CanCommit(s, block)
    decreases |block| - i
  {
    hide CanCommit;
    var a := NextRecord(GOOD);
    if i == |block| {
      CommittingCommits(Act(s, a).value, block);
    } else {
      ProcessRecordExactly(s.effects, block[i], GOOD);
      SequentialCommits(Act(s, a).value, block, i + 1);
    }
    CommitsFirst(s, a, block);
  }

  lemma WorkingIsInBlock(p: Pool, w: nat)
    requires Inv(p) && w < |p.workers| && p.workers[w].Working?
    ensures p.workers[w].record < p.records
  {
    InHandUpdate(p.workers, w, Idle);
    BelowCounts(p.sent, p.workers[w].record);
    assert p.workers[w].record in Carried(p.workers[w]);
  }

  lemma {:induction false} PooledCommits(s: System, block: seq<int>, p: Pool)
    requires s.session == Pooled(block, p) && Undisturbed(p) && p.records == |block| && !p.dispatcher.Returned?
    ensures CanCommit(s, block)
    decreases Rank(p)
  {
    hide CanCommit, Step, ProcessRecord, Accounted;
    GoodStep(p);
    var e :| IsGoodStep(p, e);
    var q := Step(p, e).value;
    StepLowersRank(p, e);
    var a := PoolStep(e, GOOD);
    if e.Finish? {
      FinishNeedsWorking(p, e);
      WorkingIsInBlock(p, e.worker);
      ProcessRecordExactly(s.effects, block[p.workers[e.worker].record], GOOD);
    }
    var t := Act(s, a).value;
    if q.dispatcher.Returned? {
      CommittingCommits(t, block);
    } else {
      PooledCommits(t, block, q);
    }
    CommitsFirst(s, a, block);
  }

  /** Whatever block is fetched and however many workers are configured, a run exists that commits the whole block. */
  lemma BlocksCanBeCommitted(s: System, block: seq<int>, configured: int)
    requires s.session == Polling && block != []
    ensures Act(s, Poll(block, configured)).Some? && CanCommit(Act(s, Poll(block, configured)).value, block)
  {
    hide CanCommit, Accounted;
    var t := Act(s, Poll(block, configured)).value;
    if t.session.Sequential? {
      SequentialCommits(t, block, 0);
    } else {
      NewPoolInv(|block|, WorkersFor(configured, |block|));
      PooledCommits(t, block, t.session.pool);
    }
  }
}
