/**
 The agent's telemetry path over whole runs: channels are read above a durable
 cursor, each event is queued on disk before the cursor moves past it, and
 queued items leave only after the server accepted them. Any step may be the
 last one before a crash.
 */
module AgentRuns {
  import opened Options

  /** A record of a Windows event channel; some cannot be decoded and are quarantined. */
  datatype Record = Record(id: nat, decodable: bool)

  datatype Event = Event(source: nat, cursor: nat)

  datatype Item = Item(file: nat, event: Event)

  // ----- one read of a channel -----

  /** The first `limit` records above the cursor, oldest first. */
  function Above(log: seq<Record>, cursor: nat, limit: nat): seq<Record> {
    if log == [] || limit == 0 then []
    else if log[0].id > cursor then [log[0]] + Above(log[1..], cursor, limit - 1)
    else Above(log[1..], cursor, limit)
  }

  /** The events built from a document: records at or below `after` are skipped, undecodable ones set aside. */
  function EventsOf(source: nat, after: nat, records: seq<Record>): (es: seq<Event>)
    ensures forall e :: e in es <==> e.source == source && e.cursor > after && Record(e.cursor, true) in records
  {
    if records == [] then []
    else
      var rest := EventsOf(source, after, records[1..]);
      assert records == [records[0]] + records[1..];
      if records[0].id > after && records[0].decodable then [Event(source, records[0].id)] + rest else rest
  }

  /** The records set aside. */
  function Undecodable(after: nat, records: seq<Record>): (rs: seq<Record>)
    ensures forall r :: r in rs <==> r in records && r.id > after && !r.decodable
  {
    if records == [] then []
    else
      var rest := Undecodable(after, records[1..]);
      assert records == [records[0]] + records[1..];
      if records[0].id > after && !records[0].decodable then [records[0]] + rest else rest
  }

  lemma DocumentStep(source: nat, after: nat, records: seq<Record>, i: nat)
    requires i <= |records|
    ensures EventsOf(source, after, []) == [] && Undecodable(after, []) == []
    ensures i < |records| ==>
            var r := records[i];
            && EventsOf(source, after, records[i..]) ==
                 (if r.id > after && r.decodable then [Event(source, r.id)] else []) + EventsOf(source, after, records[i + 1..])
            && Undecodable(after, records[i..]) ==
                 (if r.id > after && !r.decodable then [r] else []) + Undecodable(after, records[i + 1..])
  {
    assert i < |records| ==> records[i..][1..] == records[i + 1..];
  }

  /** The loop over the records of one document. */
  method ParseDocument(source: nat, records: seq<Record>, after: nat) returns (events: seq<Event>, quarantined: seq<Record>)
    ensures events == EventsOf(source, after, records) && quarantined == Undecodable(after, records)
  {
    hide EventsOf, Undecodable;
    events, quarantined := [], [];
    assert records[0..] == records;
    for i := 0 to |records|
      invariant events + EventsOf(source, after, records[i..]) == EventsOf(source, after, records)
      invariant quarantined + Undecodable(after, records[i..]) == Undecodable(after, records)
    {
      DocumentStep(source, after, records, i);
      if records[i].id <= after {
        continue;
      }
      if records[i].decodable {
        events := events + [Event(source, records[i].id)];
      } else {
        quarantined := quarantined + [records[i]];
      }
    }
    DocumentStep(source, after, records, |records|);
    assert records[|records|..] == [];
  }

  ghost predicate Rising(log: seq<Record>) {
    (forall i, j :: 0 <= i < j < |log| ==> log[i].id < log[j].id) && forall i :: 0 <= i < |log| ==> log[i].id > 0
  }

  ghost predicate RisingEvents(es: seq<Event>) {
    forall i, j :: 0 <= i < j < |es| ==> es[i].cursor < es[j].cursor
  }

  lemma RisingCons(r: Record, rest: seq<Record>)
    ensures Rising([r] + rest) <==> r.id > 0 && Rising(rest) && forall x :: x in rest ==> r.id < x.id
  {
    var log := [r] + rest;
    assert forall i :: 0 < i < |log| ==> log[i] == rest[i - 1] && log[i] in rest;
    if Rising(log) {
      forall i, j | 0 <= i < j < |rest|
        ensures rest[i].id < rest[j].id && rest[i].id > 0
      {
        assert log[i + 1].id < log[j + 1].id;
      }
      forall x | x in rest
        ensures r.id < x.id && x.id > 0
      {
        var i :| 0 <= i < |rest| && rest[i] == x;
        assert log[0].id < log[i + 1].id;
      }
    }
  }

  lemma {:induction false} AboveMembers(log: seq<Record>, cursor: nat, limit: nat)
    requires Rising(log)
    ensures Rising(Above(log, cursor, limit))
    ensures forall r :: r in Above(log, cursor, limit) ==> r in log && r.id > cursor
  {
    if log != [] && limit > 0 {
      hide Rising;
      var rest := if log[0].id > cursor then limit - 1 else limit;
      assert log == [log[0]] + log[1..];
      RisingCons(log[0], log[1..]);
      AboveMembers(log[1..], cursor, rest);
      RisingCons(log[0], Above(log[1..], cursor, rest));
    }
  }

  /** A read returns a gap-free stretch: everything above the cursor up to its last record. */
  lemma {:induction false} AboveHasNoGaps(log: seq<Record>, cursor: nat, limit: nat, r: Record, last: Record)
    requires Rising(log) && r in log && r.id > cursor && last in Above(log, cursor, limit) && r.id <= last.id
    ensures r in Above(log, cursor, limit)
  {
    AboveMembers(log, cursor, limit);
    if r != log[0] {
      assert log == [log[0]] + log[1..];
      AboveHasNoGaps(log[1..], cursor, if log[0].id > cursor then limit - 1 else limit, r, last);
    }
  }

  lemma {:induction false} EventsRise(source: nat, after: nat, records: seq<Record>)
    requires Rising(records)
    ensures RisingEvents(EventsOf(source, after, records))
  {
    if records != [] {
      EventsRise(source, after, records[1..]);
    }
  }

  // ----- the durable cursor -----

  /** The checkpoint file of one channel; writing it is an atomic rename that may fail. */
  class CheckpointFile {
    var cursor: Option<nat>

    constructor ()
      ensures cursor == None
    {
      cursor := None;
    }

    /** Resolves and stores the initial cursor the first time; afterwards the stored one stands. */
    method EnsureCheckpoint(legacy: Option<nat>, resolved: Option<nat>, readable: bool, writable: bool) returns (r: Option<nat>)
      modifies this
      ensures old(cursor).Some? ==> cursor == old(cursor) && r == if readable then cursor else None
      ensures r.Some? ==> cursor == r
      ensures old(cursor).None? && r.None? ==> cursor == None
      ensures old(cursor).None? && r.Some? ==> r == if legacy.Some? then legacy else resolved
      ensures r.Some? <==> if old(cursor).Some? then readable else writable && (legacy.Some? || resolved.Some?)
    {
      if cursor.Some? {
        return if readable then cursor else None;
      }
      var initial := if legacy.Some? then legacy else resolved;
      if initial.None? || !writable {
        return None;
      }
      cursor := initial;
      return initial;
    }

    /** Advances past a queued event; an older cursor is ignored, the empty one refused. */
    method CommitEvent(eventCursor: nat, readable: bool, writable: bool) returns (ok: bool)
      modifies this
      ensures ok ==> cursor == Committed(old(cursor), eventCursor)
      ensures !ok ==> cursor == old(cursor)
      ensures ok == (eventCursor > 0 && (old(cursor).Some? ==> readable) &&
                     (writable || (old(cursor).Some? && eventCursor <= old(cursor).value)))
    {
      if eventCursor == 0 || (cursor.Some? && !readable) {
        return false;
      }
      var current := if cursor.Some? then cursor.value else 0;
      if eventCursor <= current {
        return true;
      }
      if !writable {
        return false;
      }
      cursor := Some(eventCursor);
      return true;
    }
  }

  function Committed(current: Option<nat>, eventCursor: nat): Option<nat> {
    if current.Some? && eventCursor <= current.value then current else Some(eventCursor)
  }

  // ----- runs -----

  /** Where the agent's single control thread stands. */
  datatype Control =
    | Idle
    | Collecting(source: nat, pending: seq<Event>)  // pending[0] is not queued yet
    | Storing(source: nat, pending: seq<Event>)     // pending[0] is queued, its cursor not saved
    | Sending(batch: seq<Item>)
    | Acknowledging(batch: seq<Item>)
    | Down

  datatype World = World(
    logs: map<nat, seq<Record>>, checkpoints: map<nat, nat>, origins: map<nat, nat>,
    queue: set<Item>, accepted: set<Event>, control: Control)

  datatype Action =
    | Emit(source: nat, record: Record)
    | Initialize(source: nat, cursor: nat)
    | Read(source: nat, limit: nat)
    | Enqueue(file: nat)
    | QueueFull
    | Commit
    | EndRead
    | Peek(batch: seq<Item>)
    | Send(reached: bool, answered: bool)
    | Ack
    | AckFails
    | EndFlush
    | Crash
    | Restart

  function LogOf(w: World, source: nat): seq<Record> {
    if source in w.logs then w.logs[source] else []
  }

  function Events(batch: seq<Item>): set<Event> {
    set i | i in batch :: i.event
  }

  /** No queued item has this file. */
  predicate IsFree(queue: set<Item>, file: nat) {
    forall i :: i in queue ==> i.file != file
  }

  ghost predicate AllBelow(queue: set<Item>, file: nat) {
    forall i :: i in queue ==> i.file < file
  }

  lemma {:induction false} SomeFileIsFree(queue: set<Item>)
    ensures exists file: nat :: AllBelow(queue, file)
    ensures forall file: nat :: AllBelow(queue, file) ==> IsFree(queue, file)
  {
    if queue == {} {
      assert AllBelow(queue, 0);
    } else {
      var i :| i in queue;
      SomeFileIsFree(queue - {i});
      var rest: nat :| AllBelow(queue - {i}, rest);
      assert AllBelow(queue, if i.file < rest then rest else i.file + 1);
    }
  }

  function Step(w: World, a: Action): Option<World> {
    match (a, w.control)
    case (Emit(s, r), _) =>
      var log := LogOf(w, s);
      if r.id > 0 && (log != [] ==> log[|log| - 1].id < r.id) then Some(w.(logs := w.logs[s := log + [r]])) else None
    case (Initialize(s, cursor), Idle) =>
      if s in w.checkpoints then None
      else Some(w.(checkpoints := w.checkpoints[s := cursor], origins := w.origins[s := cursor]))
    case (Read(s, limit), Idle) =>
      if s !in w.checkpoints then None
      else Some(w.(control := Collecting(s, EventsOf(s, w.checkpoints[s], Above(LogOf(w, s), w.checkpoints[s], limit)))))
    case (Enqueue(file), Collecting(s, pending)) =>
      if pending == [] || !IsFree(w.queue, file) then None
      else Some(w.(queue := w.queue + {Item(file, pending[0])}, control := Storing(s, pending)))
    case (QueueFull, Collecting(s, pending)) => Some(w.(control := Idle))
    case (Commit, Storing(s, pending)) =>
      if pending == [] || s !in w.checkpoints then None
      else
        var current := Committed(Some(w.checkpoints[s]), pending[0].cursor);
        Some(w.(checkpoints := w.checkpoints[s := current.value], control := Collecting(s, pending[1..])))
    case (EndRead, Collecting(s, pending)) => if pending == [] then Some(w.(control := Idle)) else None
    case (Peek(batch), Idle) =>
      if forall i :: i in batch ==> i in w.queue then Some(w.(control := Sending(batch))) else None
    case (Send(reached, answered), Sending(batch)) =>
      if answered && !reached then None
      else Some(w.(accepted := if reached then w.accepted + Events(batch) else w.accepted,
                   control := if answered then Acknowledging(batch) else Idle))
    case (Ack, Acknowledging(batch)) =>
      if batch == [] then None
      else Some(w.(queue := w.queue - {batch[0]}, control := Acknowledging(batch[1..])))
    case (AckFails, Acknowledging(batch)) => Some(w.(control := Idle))
    case (EndFlush, Acknowledging(batch)) => if batch == [] then Some(w.(control := Idle)) else None
    case (Crash, _) => Some(w.(control := Down))
    case (Restart, Down) => Some(w.(control := Idle))
    case _ => None
  }

  const START := World(map[], map[], map[], {}, {}, Down)

  /** In the disk queue, or accepted by the server. */
  ghost predicate Safe(w: World, e: Event) {
    e in w.accepted || exists i :: i in w.queue && i.event == e
  }

  /** Nothing between the initial cursor and the checkpoint is missing. */
  ghost predicate Covered(w: World, s: nat) {
    s in w.checkpoints ==>
      && s in w.origins && w.origins[s] <= w.checkpoints[s]
      && forall r :: r in LogOf(w, s) && r.decodable && w.origins[s] < r.id <= w.checkpoints[s] ==> Safe(w, Event(s, r.id))
  }

  /** The checkpoint is the initial one or does not pass the newest record. */
  ghost predicate Anchored(w: World, s: nat) {
    s in w.checkpoints && s in w.origins && w.checkpoints[s] != w.origins[s] ==>
      LogOf(w, s) != [] && w.checkpoints[s] <= LogOf(w, s)[|LogOf(w, s)| - 1].id
  }

  /** The pending events are the gap-free continuation of the channel above its checkpoint. */
  ghost predicate Continues(w: World, s: nat, pending: seq<Event>) {
    && s in w.checkpoints && RisingEvents(pending)
    && (forall e :: e in pending ==> e.source == s && e.cursor > w.checkpoints[s] && Record(e.cursor, true) in LogOf(w, s))
    && (pending != [] ==>
          forall r :: r in LogOf(w, s) && r.decodable && w.checkpoints[s] < r.id <= pending[|pending| - 1].cursor ==>
            Event(s, r.id) in pending)
  }

  ghost predicate ControlOk(w: World) {
    match w.control
    case Collecting(s, pending) => Continues(w, s, pending)
    case Storing(s, pending) => Continues(w, s, pending) && pending != [] && Safe(w, pending[0])
    case Acknowledging(batch) => forall i :: i in batch ==> i.event in w.accepted
    case _ => true
  }

  ghost predicate Inv(w: World) {
    && (forall s :: Rising(LogOf(w, s)))
    && (forall s :: Covered(w, s))
    && (forall s :: Anchored(w, s))
    && ControlOk(w)
  }

  /** A new record is above every checkpoint that matters. */
  lemma EmitKeepsChannel(w: World, v: World, s: nat, r: Record)
    requires Rising(LogOf(w, s)) && Covered(w, s) && Anchored(w, s)
    requires r.id > 0 && (LogOf(w, s) != [] ==> LogOf(w, s)[|LogOf(w, s)| - 1].id < r.id)
    requires v == w.(logs := w.logs[s := LogOf(w, s) + [r]])
    ensures Rising(LogOf(v, s)) && Covered(v, s) && Anchored(v, s)
  {
    assert LogOf(v, s) == LogOf(w, s) + [r];
    assert forall e :: Safe(w, e) ==> Safe(v, e);
  }

  lemma EmitKeepsOther(w: World, v: World, t: nat)
    requires Rising(LogOf(w, t)) && Covered(w, t) && Anchored(w, t)
    requires LogOf(v, t) == LogOf(w, t) && v.checkpoints == w.checkpoints && v.origins == w.origins
    requires v.queue == w.queue && v.accepted == w.accepted
    ensures Rising(LogOf(v, t)) && Covered(v, t) && Anchored(v, t)
  {
    assert forall e :: Safe(w, e) ==> Safe(v, e);
  }

  /** Nor does it fall among the pending events. */
  lemma EmitKeepsContinues(w: World, v: World, s: nat, r: Record, t: nat, pending: seq<Event>)
    requires Rising(LogOf(w, s)) && Continues(w, t, pending)
    requires r.id > 0 && (LogOf(w, s) != [] ==> LogOf(w, s)[|LogOf(w, s)| - 1].id < r.id)
    requires v == w.(logs := w.logs[s := LogOf(w, s) + [r]])
    ensures Continues(v, t, pending)
  {
    assert LogOf(v, s) == LogOf(w, s) + [r];
    if t == s && pending != [] {
      var last := pending[|pending| - 1];
      assert last in pending;
    }
  }

  lemma EmitKeepsInv(w: World, s: nat, r: Record)
    requires Inv(w)
    ensures forall v :: Step(w, Emit(s, r)) == Some(v) ==> Inv(v)
  {
    hide Rising, Covered, Anchored, Continues;
    forall v | Step(w, Emit(s, r)) == Some(v)
      ensures Inv(v)
    {
      forall t
        ensures Rising(LogOf(v, t)) && Covered(v, t) && Anchored(v, t)
      {
        assert Rising(LogOf(w, t)) && Covered(w, t) && Anchored(w, t);
        if t == s {
          EmitKeepsChannel(w, v, s, r);
        } else {
          EmitKeepsOther(w, v, t);
        }
      }
      assert Rising(LogOf(w, s));
      if w.control.Collecting? || w.control.Storing? {
        EmitKeepsContinues(w, v, s, r, w.control.source, w.control.pending);
      }
    }
  }

  lemma ReadKeepsInv(w: World, s: nat, limit: nat)
    requires Inv(w)
    ensures forall v :: Step(w, Read(s, limit)) == Some(v) ==> Inv(v)
  {
    forall v | Step(w, Read(s, limit)) == Some(v)
      ensures Inv(v)
    {
      var log, cursor := LogOf(w, s), w.checkpoints[s];
      assert Rising(log);
      AboveMembers(log, cursor, limit);
      var records := Above(log, cursor, limit);
      EventsRise(s, cursor, records);
      var pending := EventsOf(s, cursor, records);
      if pending != [] {
        var last := pending[|pending| - 1];
        assert last in pending;
        forall r | r in log && r.decodable && cursor < r.id <= last.cursor
          ensures Event(s, r.id) in pending
        {
          AboveHasNoGaps(log, cursor, limit, r, Record(last.cursor, true));
          assert r == Record(r.id, true);
        }
      }
      assert Continues(v, s, pending);
      SameFacts(w, v);
    }
  }

  /** A step that changes only the control, or only adds to the queue and the accepted events. */
  lemma SameFacts(w: World, v: World)
    requires Inv(w) && v.logs == w.logs && v.checkpoints == w.checkpoints && v.origins == w.origins
    requires forall e :: Safe(w, e) ==> Safe(v, e)
    ensures (forall s :: Rising(LogOf(v, s))) && (forall s :: Covered(v, s)) && (forall s :: Anchored(v, s))
    ensures forall s, pending :: Continues(w, s, pending) ==> Continues(v, s, pending)
  {
    forall s
      ensures Rising(LogOf(v, s)) && Covered(v, s) && Anchored(v, s)
    {
      assert Rising(LogOf(w, s)) && Covered(w, s) && Anchored(w, s);
    }
  }

  /** Saving the cursor of the queued event extends the covered stretch by exactly that event. */
  lemma CommitKeepsChannel(w: World, v: World, s: nat, pending: seq<Event>)
    requires Rising(LogOf(w, s)) && Covered(w, s) && Anchored(w, s)
    requires Continues(w, s, pending) && pending != [] && Safe(w, pending[0])
    requires v.checkpoints == w.checkpoints[s := pending[0].cursor]
    requires v.logs == w.logs && v.origins == w.origins && v.queue == w.queue && v.accepted == w.accepted
    ensures Covered(v, s) && Anchored(v, s)
  {
    var cursor := pending[0].cursor;
    assert pending[0] in pending;
    assert forall e :: Safe(w, e) ==> Safe(v, e);
    forall r | r in LogOf(w, s) && r.decodable && w.origins[s] < r.id <= cursor
      ensures Safe(v, Event(s, r.id))
    {
      if r.id > w.checkpoints[s] {
        assert cursor <= pending[|pending| - 1].cursor;
        var i :| 0 <= i < |pending| && pending[i] == Event(s, r.id);
        assert i == 0;
      }
    }
  }

  lemma CommitKeepsOther(w: World, v: World, s: nat, cursor: nat, t: nat)
    requires t != s && Covered(w, t) && Anchored(w, t) && v.checkpoints == w.checkpoints[s := cursor]
    requires v.logs == w.logs && v.origins == w.origins && v.queue == w.queue && v.accepted == w.accepted
    ensures Covered(v, t) && Anchored(v, t)
  {
    assert forall e :: Safe(w, e) ==> Safe(v, e);
  }

  lemma CommitKeepsInv(w: World)
    requires Inv(w)
    ensures forall v :: Step(w, Commit) == Some(v) ==> Inv(v)
  {
    hide Rising, Covered, Anchored, Continues, Safe;
    forall v | Step(w, Commit) == Some(v)
      ensures Inv(v)
    {
      var s, pending := w.control.source, w.control.pending;
      PendingIsAhead(w, s, pending);
      forall t
        ensures Rising(LogOf(v, t)) && Covered(v, t) && Anchored(v, t)
      {
        assert Rising(LogOf(w, t)) && Covered(w, t) && Anchored(w, t);
        if t == s {
          CommitKeepsChannel(w, v, s, pending);
        } else {
          CommitKeepsOther(w, v, s, pending[0].cursor, t);
        }
      }
      RestContinues(w, v, s, pending);
    }
  }

  lemma PendingIsAhead(w: World, s: nat, pending: seq<Event>)
    requires Continues(w, s, pending) && pending != []
    ensures s in w.checkpoints && pending[0].cursor > w.checkpoints[s]
  {
    assert pending[0] in pending;
  }

  lemma RestContinues(w: World, v: World, s: nat, pending: seq<Event>)
    requires Continues(w, s, pending) && pending != [] && v.logs == w.logs
    requires v.checkpoints == w.checkpoints[s := pending[0].cursor]
    ensures Continues(v, s, pending[1..])
  {
    var rest := pending[1..];
    assert pending[0] in pending;
    forall e | e in rest
      ensures e.source == s && e.cursor > pending[0].cursor && Record(e.cursor, true) in LogOf(v, s)
    {
      var i :| 0 <= i < |rest| && rest[i] == e;
      assert pending[i + 1] == e && e in pending;
    }
    if rest != [] {
      forall r | r in LogOf(v, s) && r.decodable && pending[0].cursor < r.id <= rest[|rest| - 1].cursor
        ensures Event(s, r.id) in rest
      {
        var i :| 0 <= i < |pending| && pending[i] == Event(s, r.id);
        assert rest[i - 1] == pending[i];
      }
    }
  }

  lemma AckKeepsInv(w: World)
    requires Inv(w)
    ensures forall v :: Step(w, Ack) == Some(v) ==> Inv(v)
  {
    forall v | Step(w, Ack) == Some(v)
      ensures Inv(v)
    {
      var batch := w.control.batch;
      assert batch[0] in batch;
      forall e | Safe(w, e)
        ensures Safe(v, e)
      {
        if e !in w.accepted {
          var i :| i in w.queue && i.event == e;
          assert i in v.queue;
        }
      }
      SameFacts(w, v);
    }
  }

  lemma InitializeKeepsInv(w: World, s: nat, cursor: nat)
    requires Inv(w)
    ensures forall v :: Step(w, Initialize(s, cursor)) == Some(v) ==> Inv(v)
  {
    forall v | Step(w, Initialize(s, cursor)) == Some(v)
      ensures Inv(v)
    {
      forall t
        ensures Rising(LogOf(v, t)) && Covered(v, t) && Anchored(v, t)
      {
        assert Rising(LogOf(w, t)) && Covered(w, t) && Anchored(w, t);
        assert forall e :: Safe(w, e) ==> Safe(v, e);
      }
    }
  }

  lemma StepKeepsInv(w: World, a: Action)
    requires Inv(w)
    ensures forall v :: Step(w, a) == Some(v) ==> Inv(v)
  {
    forall v | Step(w, a) == Some(v)
      ensures Inv(v)
    {
      match a
      case Emit(s, r) => EmitKeepsInv(w, s, r);
      case Initialize(s, cursor) => InitializeKeepsInv(w, s, cursor);
      case Read(s, limit) => ReadKeepsInv(w, s, limit);
      case Commit => CommitKeepsInv(w);
      case Ack => AckKeepsInv(w);
      case Enqueue(file) =>
        var pending := w.control.pending;
        assert Item(file, pending[0]) in v.queue;
        SameFacts(w, v);
      case _ => SameFacts(w, v);
    }
  }

  /** A checkpoint never moves back, and an item leaves the queue only after the server accepted it. */
  lemma StepIsCareful(w: World, a: Action)
    requires Inv(w) && Step(w, a).Some?
    ensures var v := Step(w, a).value;
            && (forall s :: s in w.checkpoints ==> s in v.checkpoints && w.checkpoints[s] <= v.checkpoints[s])
            && (forall s :: s in w.checkpoints && s in w.origins ==> s in v.origins && v.origins[s] == w.origins[s])
            && (forall i :: i in w.queue && i !in v.queue ==> i.event in w.accepted)
            && w.accepted <= v.accepted
  {
  }

  function Execute(w: World, actions: seq<Action>): Option<World>
    decreases |actions|
  {
    if actions == [] then Some(w)
    else
      match Step(w, actions[0])
      case None => None
      case Some(v) => Execute(v, actions[1..])
  }

  lemma {:induction false} ExecuteKeepsInv(w: World, actions: seq<Action>)
    requires Inv(w)
    ensures forall v :: Execute(w, actions) == Some(v) ==>
              && Inv(v)
              && (forall s :: s in w.checkpoints ==> s in v.checkpoints && w.checkpoints[s] <= v.checkpoints[s])
              && (forall i :: i in w.queue && i !in v.queue ==> i.event in v.accepted)
              && w.accepted <= v.accepted
    decreases |actions|
  {
    if actions != [] && Step(w, actions[0]).Some? {
      StepKeepsInv(w, actions[0]);
      StepIsCareful(w, actions[0]);
      ExecuteKeepsInv(Step(w, actions[0]).value, actions[1..]);
    }
  }

  /**
   Over every run with crashes at any step, every decodable record above the
   initial cursor and at or below the durable checkpoint is in the disk queue
   or was accepted by the server.
   */
  lemma NoTelemetryIsLost(actions: seq<Action>, s: nat)
    requires Execute(START, actions).Some?
    ensures var w := Execute(START, actions).value;
            s in w.checkpoints ==>
              && s in w.origins
              && forall r :: r in LogOf(w, s) && r.decodable && w.origins[s] < r.id <= w.checkpoints[s] ==>
                   Event(s, r.id) in w.accepted || exists i :: i in w.queue && i.event == Event(s, r.id)
  {
    ExecuteKeepsInv(START, actions);
    assert Covered(Execute(START, actions).value, s);
  }

  // ----- progress of the queue -----

  /** A run after which the server has the event and the item, and no other, has left the queue. */
  ghost predicate Delivers(w: World, actions: seq<Action>, i: Item) {
    && Execute(w, actions).Some?
    && Execute(w, actions).value.accepted == w.accepted + {i.event}
    && Execute(w, actions).value.queue == w.queue - {i}
    && Execute(w, actions).value.checkpoints == w.checkpoints
  }

  /** From every state, in the middle of anything, some run delivers any queued item. */
  lemma QueuedCanBeDelivered(w: World, i: Item)
    requires i in w.queue
    ensures exists actions :: Delivers(w, actions, i)
  {
    var idle := w.(control := Idle);
    var sent := idle.(accepted := w.accepted + {i.event}, control := Acknowledging([i]));
    var done := sent.(queue := w.queue - {i}, control := Acknowledging([]));
    assert [i][1..] == [] && Events([i]) == {i.event};
    assert Step(w, Crash) == Some(w.(control := Down));
    assert Step(w.(control := Down), Restart) == Some(idle);
    assert Step(idle, Peek([i])) == Some(idle.(control := Sending([i])));
    assert Step(idle.(control := Sending([i])), Send(true, true)) == Some(sent);
    assert Step(sent, Ack) == Some(done);
    assert Execute(done, []) == Some(done);
    First(sent, Ack, []);
    First(idle.(control := Sending([i])), Send(true, true), [Ack] + []);
    First(idle, Peek([i]), [Send(true, true)] + ([Ack] + []));
    First(w.(control := Down), Restart, [Peek([i])] + ([Send(true, true)] + ([Ack] + [])));
    First(w, Crash, [Restart] + ([Peek([i])] + ([Send(true, true)] + ([Ack] + []))));
    assert Delivers(w, [Crash] + ([Restart] + ([Peek([i])] + ([Send(true, true)] + ([Ack] + [])))), i);
  }

  // ----- progress of a channel -----

  /** A full read of the channel holds nothing that can be decoded. */
  ghost predicate Stalled(w: World, s: nat, limit: nat) {
    && s in w.checkpoints
    && |Above(LogOf(w, s), w.checkpoints[s], limit)| == limit
    && forall r :: r in Above(LogOf(w, s), w.checkpoints[s], limit) ==> !r.decodable
  }

  /**
   A read of records above the cursor yields no event exactly when none of the
   first `limit` of them can be decoded.
   */
  lemma ReadYieldsNothingExactly(source: nat, log: seq<Record>, cursor: nat, limit: nat)
    requires Rising(log)
    ensures EventsOf(source, cursor, Above(log, cursor, limit)) == [] <==>
            forall r :: r in Above(log, cursor, limit) ==> !r.decodable
  {
    var records := Above(log, cursor, limit);
    AboveMembers(log, cursor, limit);
    if r :| r in records && r.decodable {
      assert r == Record(r.id, true);
      assert Event(source, r.id) in EventsOf(source, cursor, records);
    }
    if EventsOf(source, cursor, records) != [] {
      var e := EventsOf(source, cursor, records)[0];
      assert e in EventsOf(source, cursor, records);
    }
  }

  /** A full read does not see records that arrive later, nor any read those at or below its cursor. */
  lemma {:induction false} LaterRecord(log: seq<Record>, r: Record, cursor: nat, limit: nat)
    ensures Above(log + [r], cursor, limit) ==
            Above(log, cursor, limit) + (if r.id > cursor && |Above(log, cursor, limit)| < limit then [r] else [])
    ensures |Above(log, cursor, limit)| <= limit
  {
    if log == [] {
      assert log + [r] == [r] && [r][1..] == [];
      assert limit > 0 && r.id > cursor ==> Above([r], cursor, limit) == [r] + Above([], cursor, limit - 1);
    } else if limit > 0 {
      assert (log + [r])[1..] == log[1..] + [r];
      LaterRecord(log[1..], r, cursor, if log[0].id > cursor then limit - 1 else limit);
    }
  }

  /** The channel is stalled and no event of it is on its way to the queue. */
  ghost predicate StalledAtRest(w: World, s: nat, limit: nat) {
    && Stalled(w, s, limit)
    && !(w.control.Storing? && w.control.source == s)
    && (w.control.Collecting? && w.control.source == s ==> w.control.pending == [])
  }

  lemma StepKeepsStalled(w: World, a: Action, s: nat, limit: nat)
    requires Inv(w) && StalledAtRest(w, s, limit) && (a.Read? && a.source == s ==> a.limit == limit)
    ensures forall v :: Step(w, a) == Some(v) ==> StalledAtRest(v, s, limit) && v.checkpoints[s] == w.checkpoints[s]
  {
    hide Covered, Anchored, ControlOk, Above, EventsOf;
    forall v | Step(w, a) == Some(v)
      ensures StalledAtRest(v, s, limit) && v.checkpoints[s] == w.checkpoints[s]
    {
      match a
      case Emit(t, r) =>
        if t == s {
          LaterRecord(LogOf(w, s), r, w.checkpoints[s], limit);
        }
      case Read(t, _) =>
        if t == s {
          assert Rising(LogOf(w, s));
          ReadYieldsNothingExactly(s, LogOf(w, s), w.checkpoints[s], limit);
        }
      case _ =>
    }
  }

  /** Every read of channel `s` asks for `limit` records. */
  ghost predicate ReadsWith(actions: seq<Action>, s: nat, limit: nat) {
    forall a :: a in actions && a.Read? && a.source == s ==> a.limit == limit
  }

  /** Whatever happens to a stalled channel, crashes and new records included, its checkpoint stays. */
  lemma {:induction false} StallIsPermanent(w: World, actions: seq<Action>, s: nat, limit: nat)
    requires Inv(w) && StalledAtRest(w, s, limit) && ReadsWith(actions, s, limit)
    ensures forall v :: Execute(w, actions) == Some(v) ==>
              StalledAtRest(v, s, limit) && v.checkpoints[s] == w.checkpoints[s]
    decreases |actions|
  {
    if actions != [] && Step(w, actions[0]).Some? {
      assert actions[0] in actions;
      StepKeepsInv(w, actions[0]);
      StepKeepsStalled(w, actions[0], s, limit);
      StallIsPermanent(Step(w, actions[0]).value, actions[1..], s, limit);
    }
  }

  /** The run starts with this step. */
  lemma First(w: World, a: Action, rest: seq<Action>)
    requires Step(w, a).Some?
    ensures Execute(w, [a] + rest) == Execute(Step(w, a).value, rest)
  {
    assert ([a] + rest)[1..] == rest;
  }

  /** A run with reads of `limit` that raises the checkpoint of `s`. */
  ghost predicate Advances(w: World, actions: seq<Action>, s: nat, limit: nat) {
    ReadsWith(actions, s, limit) && Execute(w, actions).Some? && CursorOf(w, s) < CursorOf(Execute(w, actions).value, s)
  }

  /** The checkpoint of a channel, below all others when there is none. */
  function CursorOf(w: World, s: nat): int {
    if s in w.checkpoints then w.checkpoints[s] else -1
  }

  /** Some run with reads of `limit` raises the checkpoint of `s`. */
  ghost predicate CanAdvance(w: World, s: nat, limit: nat) {
    exists actions :: Advances(w, actions, s, limit)
  }

  lemma AdvancesFirst(w: World, a: Action, s: nat, limit: nat)
    requires Step(w, a).Some? && CanAdvance(Step(w, a).value, s, limit)
    requires CursorOf(w, s) <= CursorOf(Step(w, a).value, s)
    requires a.Read? && a.source == s ==> a.limit == limit
    ensures CanAdvance(w, s, limit)
  {
    var rest :| Advances(Step(w, a).value, rest, s, limit);
    First(w, a, rest);
    assert Advances(w, [a] + rest, s, limit);
  }

  /** From a queued event: its cursor is saved. */
  lemma StoringAdvances(w: World, s: nat, limit: nat)
    requires Inv(w) && w.control.Storing? && w.control.source == s
    ensures CanAdvance(w, s, limit)
  {
    var pending := w.control.pending;
    PendingIsAhead(w, s, pending);
    First(w, Commit, []);
    assert Execute(w, [Commit] + []) == Some(Step(w, Commit).value);
    assert Advances(w, [Commit] + [], s, limit);
  }

  /** From a pending event: it is queued. */
  lemma PendingAdvances(w: World, s: nat, limit: nat)
    requires Inv(w) && w.control.Collecting? && w.control.source == s && w.control.pending != []
    ensures CanAdvance(w, s, limit)
  {
    SomeFileIsFree(w.queue);
    var file: nat :| AllBelow(w.queue, file);
    var a := Enqueue(file);
    StepKeepsInv(w, a);
    StoringAdvances(Step(w, a).value, s, limit);
    AdvancesFirst(w, a, s, limit);
  }

  /** From rest with a decodable record in reach: it is read. */
  lemma ReadableAdvances(w: World, s: nat, limit: nat)
    requires Inv(w) && w.control == Idle && s in w.checkpoints
    requires exists r :: r in Above(LogOf(w, s), w.checkpoints[s], limit) && r.decodable
    ensures CanAdvance(w, s, limit)
  {
    assert Rising(LogOf(w, s));
    ReadYieldsNothingExactly(s, LogOf(w, s), w.checkpoints[s], limit);
    var a := Read(s, limit);
    StepKeepsInv(w, a);
    PendingAdvances(Step(w, a).value, s, limit);
    AdvancesFirst(w, a, s, limit);
  }

  /** A record that the channel can write next and that no read has passed. */
  function NextId(w: World, s: nat): nat
    requires s in w.checkpoints
  {
    var log := LogOf(w, s);
    1 + w.checkpoints[s] + (if log == [] then 0 else log[|log| - 1].id)
  }

  /** From rest: a decodable record within reach is read; if there is none, the read is short and one can arrive. */
  lemma IdleAdvances(w: World, s: nat, limit: nat)
    requires Inv(w) && w.control == Idle && s in w.checkpoints && !Stalled(w, s, limit)
    ensures CanAdvance(w, s, limit)
  {
    var r := Record(NextId(w, s), true);
    LaterRecord(LogOf(w, s), r, w.checkpoints[s], limit);
    if x :| x in Above(LogOf(w, s), w.checkpoints[s], limit) && x.decodable {
      ReadableAdvances(w, s, limit);
    } else {
      var a := Emit(s, r);
      StepKeepsInv(w, a);
      var v := Step(w, a).value;
      assert LogOf(v, s) == LogOf(w, s) + [r];
      assert r in Above(LogOf(v, s), v.checkpoints[s], limit);
      ReadableAdvances(v, s, limit);
      AdvancesFirst(w, a, s, limit);
    }
  }

  lemma UnstalledAdvances(w: World, s: nat, limit: nat)
    requires Inv(w) && s in w.checkpoints && !StalledAtRest(w, s, limit)
    ensures CanAdvance(w, s, limit)
  {
    hide Inv, Stalled, CanAdvance;
    if w.control.Storing? && w.control.source == s {
      StoringAdvances(w, s, limit);
    } else if w.control.Collecting? && w.control.source == s && w.control.pending != [] {
      PendingAdvances(w, s, limit);
    } else {
      StepKeepsInv(w, Crash);
      var down := Step(w, Crash).value;
      StepKeepsInv(down, Restart);
      var idle := Step(down, Restart).value;
      SameChannel(w, idle, s, limit);
      IdleAdvances(idle, s, limit);
      AdvancesFirst(down, Restart, s, limit);
      AdvancesFirst(w, Crash, s, limit);
    }
  }

  lemma SameChannel(w: World, v: World, s: nat, limit: nat)
    requires v.logs == w.logs && v.checkpoints == w.checkpoints
    ensures Stalled(v, s, limit) <==> Stalled(w, s, limit)
  {
  }

  /**
   A channel is wedged, that is, no run whose reads ask for `limit` records ever
   raises its checkpoint again, exactly when a full read of it holds nothing
   that can be decoded and no event of it is on its way.
   */
  lemma WedgedExactly(w: World, s: nat, limit: nat)
    requires Inv(w) && s in w.checkpoints
    ensures !CanAdvance(w, s, limit) <==> StalledAtRest(w, s, limit)
  {
    hide Inv, StalledAtRest, Execute;
    if StalledAtRest(w, s, limit) {
      forall actions
        ensures !Advances(w, actions, s, limit)
      {
        if Advances(w, actions, s, limit) {
          StallIsPermanent(w, actions, s, limit);
        }
      }
    } else {
      UnstalledAdvances(w, s, limit);
    }
  }

  // ----- a run into a wedged channel -----

  /** The first `n` records of a channel, none of which can be decoded. */
  function Undecoded(n: nat): (log: seq<Record>)
    ensures |log| == n
  {
    seq(n, i requires 0 <= i < n => Record(i + 1, false))
  }

  function Arrivals(s: nat, n: nat): seq<Action> {
    if n == 0 then [] else Arrivals(s, n - 1) + [Emit(s, Record(n, false))]
  }

  lemma {:induction false} ExecuteAppend(w: World, a: seq<Action>, b: seq<Action>)
    requires Execute(w, a).Some?
    ensures Execute(w, a + b) == Execute(Execute(w, a).value, b)
    decreases |a|
  {
    if a == [] {
      assert a + b == b;
    } else {
      assert (a + b)[1..] == a[1..] + b;
      ExecuteAppend(Step(w, a[0]).value, a[1..], b);
    }
  }

  lemma {:induction false} Arrive(w: World, s: nat, n: nat)
    requires LogOf(w, s) == []
    ensures Execute(w, Arrivals(s, n)) == Some(w.(logs := if n == 0 then w.logs else w.logs[s := Undecoded(n)]))
  {
    if n > 0 {
      Arrive(w, s, n - 1);
      ExecuteAppend(w, Arrivals(s, n - 1), [Emit(s, Record(n, false))]);
      var v := Execute(w, Arrivals(s, n - 1)).value;
      assert LogOf(v, s) == Undecoded(n - 1);
      assert Undecoded(n) == Undecoded(n - 1) + [Record(n, false)];
      var after := Step(v, Emit(s, Record(n, false)));
      assert after.Some? && after.value.logs == w.logs[s := Undecoded(n)];
      First(v, Emit(s, Record(n, false)), []);
      assert [Emit(s, Record(n, false))] + [] == [Emit(s, Record(n, false))];
    }
  }

  lemma {:induction false} AllAbove(log: seq<Record>, limit: nat)
    requires |log| <= limit && forall i :: 0 <= i < |log| ==> log[i].id > 0
    ensures Above(log, 0, limit) == log
  {
    if log != [] {
      AllAbove(log[1..], limit - 1);
      assert log == [log[0]] + log[1..];
    }
  }

  /** A fresh agent that starts at the oldest record. */
  function WedgingRun(s: nat, limit: nat): seq<Action> {
    [Restart] + ([Initialize(s, 0)] + Arrivals(s, limit))
  }

  /** For every read size there is a run from the start into a wedged channel. */
  lemma WedgedIsReachable(s: nat, limit: nat)
    requires limit > 0
    ensures exists w :: Execute(START, WedgingRun(s, limit)) == Some(w) && Inv(w) && StalledAtRest(w, s, limit) && !CanAdvance(w, s, limit)
  {
    hide Inv, CanAdvance;
    var idle := START.(control := Idle);
    var ready := idle.(checkpoints := map[s := 0], origins := map[s := 0]);
    assert Step(START, Restart) == Some(idle);
    assert idle.checkpoints[s := 0] == map[s := 0] && idle.origins[s := 0] == map[s := 0];
    assert Step(idle, Initialize(s, 0)) == Some(ready);
    First(START, Restart, [Initialize(s, 0)] + Arrivals(s, limit));
    First(idle, Initialize(s, 0), Arrivals(s, limit));
    Arrive(ready, s, limit);
    var w := Execute(START, WedgingRun(s, limit)).value;
    assert LogOf(w, s) == Undecoded(limit);
    AllAbove(Undecoded(limit), limit);
    assert StalledAtRest(w, s, limit);
    StartIsSound();
    ExecuteKeepsInv(START, WedgingRun(s, limit));
    WedgedExactly(w, s, limit);
  }

  lemma StartIsSound()
    ensures Inv(START)
  {
  }
}
