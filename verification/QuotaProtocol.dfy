/**
 Many gateways reserving through the shared store: ask, load the baseline when
 told to, ask again. The log records what the script has really done, also when
 its reply was lost.
 */
module QuotaProtocol {
  import opened Options
  import opened IngestQuota

  datatype Outcome = Replied(reply: Reply) | Errored

  datatype Gateway =
    | Ready
    | Asking(request: Request)
    | Bootstrapping(request: Request)
    | Returning(request: Request, baseline: Baseline)
    | Finished(outcome: Outcome, calls: nat)

  /** A baseline written to a day's counters, or a reservation added to them. */
  datatype LogEntry =
    | BaselineLoaded(tenant: string, day: int, baseline: Baseline)
    | Reserved(tenant: string, day: int, events: nat, bytes: nat)

  datatype World = World(db: Database, clock: int, gateways: seq<Gateway>, log: seq<LogEntry>)

  datatype Action =
    | Arrive(gateway: nat, request: Request)
    | Call(gateway: nat, lost: bool)
    | ReadUsage(gateway: nat, usage: Option<Baseline>)
    | GiveUp(gateway: nat)  // an error before the script was reached
    | Leave(gateway: nat)
    | Tick(milliseconds: nat)

  /** How far a gateway's clock reading may be ahead of or behind the store when its script runs. */
  datatype Skew = Skew(ahead: nat, behind: nat)

  predicate WithinGrace(skew: Skew) {
    skew.ahead + skew.behind <= HOUR
  }

  predicate OnTime(skew: Skew, r: Request, clock: int) {
    r.now - skew.ahead <= clock <= r.now + skew.behind
  }

  function NewWorld(gateways: nat): World {
    World(map[], 0, seq(gateways, _ => Ready), [])
  }

  /** What one script run adds to the log. */
  function LogOf(db: Database, clock: int, r: Request, baseline: Option<Baseline>): seq<LogEntry> {
    var reply := Script(db, clock, r, baseline).1;
    (if !Present(db, EventsKeyOf(r), clock) && baseline.Some?
     then [BaselineLoaded(r.tenant, DayOf(r.now), baseline.value)] else [])
    + (if reply.Granted? then [Reserved(r.tenant, DayOf(r.now), r.events, r.bytes)] else [])
  }

  function AfterCall(r: Request, reply: Reply, calls: nat, lost: bool): Gateway {
    if lost then Finished(Errored, calls)
    else if reply.NeedsBootstrap? && calls == 1 then Bootstrapping(r)
    else Finished(Replied(reply), calls)
  }

  function RunScript(w: World, g: nat, r: Request, baseline: Option<Baseline>, calls: nat, lost: bool): World
    requires g < |w.gateways|
  {
    var (db, reply) := Script(w.db, w.clock, r, baseline);
    World(db, w.clock, w.gateways[g := AfterCall(r, reply, calls, lost)], w.log + LogOf(w.db, w.clock, r, baseline))
  }

  function Step(skew: Skew, w: World, a: Action): Option<World> {
    match a
    case Tick(ms) => Some(w.(clock := w.clock + ms))
    case Arrive(g, r) =>
      if g < |w.gateways| && w.gateways[g].Ready? then Some(w.(gateways := w.gateways[g := Asking(r)])) else None
    case Call(g, lost) =>
      if g >= |w.gateways| then None
      else
        (match w.gateways[g]
         case Asking(r) => if OnTime(skew, r, w.clock) then Some(RunScript(w, g, r, None, 1, lost)) else None
         case Returning(r, baseline) =>
           if OnTime(skew, r, w.clock) then Some(RunScript(w, g, r, Some(baseline), 2, lost)) else None
         case _ => None)
    case ReadUsage(g, usage) =>
      if g < |w.gateways| && w.gateways[g].Bootstrapping? then
        Some(w.(gateways := w.gateways[g := if usage.None? then Finished(Errored, 1)
                                            else Returning(w.gateways[g].request, usage.value)]))
      else None
    case GiveUp(g) =>
      if g < |w.gateways| && (w.gateways[g].Asking? || w.gateways[g].Returning?) then
        Some(w.(gateways := w.gateways[g := Finished(Errored, if w.gateways[g].Asking? then 0 else 1)]))
      else None
    case Leave(g) =>
      if g < |w.gateways| && w.gateways[g].Finished? then Some(w.(gateways := w.gateways[g := Ready])) else None
  }

  // ----- conservation -----

  function Loads(log: seq<LogEntry>, tenant: string, day: int): seq<Baseline> {
    if log == [] then []
    else
      var last := log[|log| - 1];
      Loads(log[..|log| - 1], tenant, day)
      + (if last.BaselineLoaded? && last.tenant == tenant && last.day == day then [last.baseline] else [])
  }

  function ReservedEvents(log: seq<LogEntry>, tenant: string, day: int): nat {
    if log == [] then 0
    else
      var last := log[|log| - 1];
      ReservedEvents(log[..|log| - 1], tenant, day)
      + (if last.Reserved? && last.tenant == tenant && last.day == day then last.events else 0)
  }

  function ReservedBytes(log: seq<LogEntry>, tenant: string, day: int): nat {
    if log == [] then 0
    else
      var last := log[|log| - 1];
      ReservedBytes(log[..|log| - 1], tenant, day)
      + (if last.Reserved? && last.tenant == tenant && last.day == day then last.bytes else 0)
  }

  /** A cell that holds `value` and outlives the day, up to the tolerated clock lead. */
  ghost predicate Keeps(db: Database, k: Key, value: int, skew: Skew, day: int) {
    k in db && db[k].value == value && db[k].expiresAt.Some? &&
    db[k].expiresAt.value >= day * DAY + 25 * HOUR - skew.ahead
  }

  /** The counters of one tenant and day are untouched, or equal their one baseline plus all reservations. */
  ghost predicate Balanced(skew: Skew, w: World, tenant: string, day: int) {
    |Loads(w.log, tenant, day)| <= 1 && forall counter :: CounterIs(skew, w, tenant, day, counter)
  }

  datatype Counter = Events | Bytes

  ghost predicate CounterIs(skew: Skew, w: World, tenant: string, day: int, counter: Counter) {
    var loads := Loads(w.log, tenant, day);
    match counter
    case Events =>
      var k, sum := EventsKey(tenant, day), ReservedEvents(w.log, tenant, day);
      if loads == [] then k !in w.db && sum == 0 else Keeps(w.db, k, loads[0].events + sum, skew, day)
    case Bytes =>
      var k, sum := BytesKey(tenant, day), ReservedBytes(w.log, tenant, day);
      if loads == [] then k !in w.db && sum == 0 else Keeps(w.db, k, loads[0].bytes + sum, skew, day)
  }

  lemma BothCounters(skew: Skew, w: World, tenant: string, day: int)
    ensures Balanced(skew, w, tenant, day) <==>
            |Loads(w.log, tenant, day)| <= 1 && CounterIs(skew, w, tenant, day, Events) && CounterIs(skew, w, tenant, day, Bytes)
  {
  }

  ghost predicate AllBalanced(skew: Skew, w: World) {
    forall tenant, day :: Balanced(skew, w, tenant, day)
  }

  predicate BoundedCalls(g: Gateway) {
    g.Finished? ==> g.calls <= 2 && (g.outcome.Replied? ==> !g.outcome.reply.NeedsBootstrap?)
  }

  ghost predicate Inv(skew: Skew, w: World) {
    AllBalanced(skew, w) && forall g :: 0 <= g < |w.gateways| ==> BoundedCalls(w.gateways[g])
  }

  lemma LogSums(log: seq<LogEntry>, e: LogEntry, tenant: string, day: int)
    ensures Loads(log + [e], tenant, day) ==
            Loads(log, tenant, day) + (if e.BaselineLoaded? && e.tenant == tenant && e.day == day then [e.baseline] else [])
    ensures ReservedEvents(log + [e], tenant, day) ==
            ReservedEvents(log, tenant, day) + (if e.Reserved? && e.tenant == tenant && e.day == day then e.events else 0)
    ensures ReservedBytes(log + [e], tenant, day) ==
            ReservedBytes(log, tenant, day) + (if e.Reserved? && e.tenant == tenant && e.day == day then e.bytes else 0)
  {
    assert (log + [e])[..|log|] == log;
  }

  /** Whether a log entry concerns a tenant and day. */
  predicate Concerns(e: LogEntry, tenant: string, day: int) {
    e.tenant == tenant && e.day == day
  }

  lemma SumsElsewhere(log: seq<LogEntry>, more: seq<LogEntry>, tenant: string, day: int)
    requires |more| <= 2 && forall e :: e in more ==> !Concerns(e, tenant, day)
    ensures Loads(log + more, tenant, day) == Loads(log, tenant, day)
    ensures ReservedEvents(log + more, tenant, day) == ReservedEvents(log, tenant, day)
    ensures ReservedBytes(log + more, tenant, day) == ReservedBytes(log, tenant, day)
  {
    if |more| == 0 {
      assert log + more == log;
    } else if |more| == 1 {
      assert more == [more[0]] && more[0] in more;
      LogSums(log, more[0], tenant, day);
    } else {
      assert log + more == log + [more[0]] + [more[1]] && more[0] in more && more[1] in more;
      LogSums(log, more[0], tenant, day);
      LogSums(log + [more[0]], more[1], tenant, day);
    }
  }

  /** The lifetime a call writes reaches past the day. */
  lemma Outlives(skew: Skew, r: Request, clock: int)
    requires OnTime(skew, r, clock)
    ensures clock + DayTtl(r.now) >= DayOf(r.now) * DAY + 25 * HOUR - skew.ahead
  {
  }

  lemma ScriptElsewhere(db: Database, clock: int, r: Request, baseline: Option<Baseline>, k: Key)
    requires k != EventsKeyOf(r) && k != BytesKeyOf(r) && k != SecondKeyOf(r)
    ensures k in Script(db, clock, r, baseline).0 <==> k in db
    ensures k in db ==> Script(db, clock, r, baseline).0[k] == db[k]
  {
  }

  lemma BalancedElsewhere(skew: Skew, w: World, g: nat, r: Request, baseline: Option<Baseline>, calls: nat, lost: bool, tenant: string, day: int)
    requires g < |w.gateways| && Balanced(skew, w, tenant, day)
    requires tenant != r.tenant || day != DayOf(r.now)
    ensures Balanced(skew, RunScript(w, g, r, baseline, calls, lost), tenant, day)
  {
    hide Script, Loads, ReservedEvents, ReservedBytes, Balanced;
    BothCounters(skew, w, tenant, day);
    BothCounters(skew, RunScript(w, g, r, baseline, calls, lost), tenant, day);
    ScriptElsewhere(w.db, w.clock, r, baseline, EventsKey(tenant, day));
    ScriptElsewhere(w.db, w.clock, r, baseline, BytesKey(tenant, day));
    SumsElsewhere(w.log, LogOf(w.db, w.clock, r, baseline), tenant, day);
  }

  /** A call on counters that are not there yet: without a baseline nothing happens, with one they are loaded. */
  lemma BalancedFirst(skew: Skew, w: World, g: nat, r: Request, baseline: Option<Baseline>, calls: nat, lost: bool)
    requires g < |w.gateways| && Balanced(skew, w, r.tenant, DayOf(r.now)) && OnTime(skew, r, w.clock)
    requires Loads(w.log, r.tenant, DayOf(r.now)) == []
    ensures Balanced(skew, RunScript(w, g, r, baseline, calls, lost), r.tenant, DayOf(r.now))
  {
    hide Loads, ReservedEvents, ReservedBytes, DayTtl, Balanced;
    Outlives(skew, r, w.clock);
    var tenant, day := r.tenant, DayOf(r.now);
    BothCounters(skew, w, tenant, day);
    BothCounters(skew, RunScript(w, g, r, baseline, calls, lost), tenant, day);
    if baseline.Some? {
      var load, reserved := BaselineLoaded(tenant, day, baseline.value), Reserved(tenant, day, r.events, r.bytes);
      LogSums(w.log, load, tenant, day);
      LogSums(w.log + [load], reserved, tenant, day);
      assert w.log + ([load] + [reserved]) == w.log + [load] + [reserved];
      assert w.log + ([load] + []) == w.log + [load];
    } else {
      assert w.log + ([] + []) == w.log;
    }
  }

  /** A call on loaded counters ignores any baseline. */
  lemma BalancedAgain(skew: Skew, w: World, g: nat, r: Request, baseline: Option<Baseline>, calls: nat, lost: bool)
    requires g < |w.gateways| && Balanced(skew, w, r.tenant, DayOf(r.now)) && OnTime(skew, r, w.clock) && WithinGrace(skew)
    requires Loads(w.log, r.tenant, DayOf(r.now)) != []
    ensures Balanced(skew, RunScript(w, g, r, baseline, calls, lost), r.tenant, DayOf(r.now))
  {
    hide Loads, ReservedEvents, ReservedBytes, DayTtl, Balanced;
    var tenant, day := r.tenant, DayOf(r.now);
    BothCounters(skew, w, tenant, day);
    BothCounters(skew, RunScript(w, g, r, baseline, calls, lost), tenant, day);
    Outlives(skew, r, w.clock);
    var reserved := Reserved(tenant, day, r.events, r.bytes);
    LogSums(w.log, reserved, tenant, day);
    assert w.log + ([] + [reserved]) == w.log + [reserved] && w.log + ([] + []) == w.log;
  }

  lemma CallKeepsInv(skew: Skew, w: World, g: nat, r: Request, baseline: Option<Baseline>, calls: nat, lost: bool)
    requires Inv(skew, w) && g < |w.gateways| && OnTime(skew, r, w.clock) && WithinGrace(skew)
    requires calls == if baseline.Some? then 2 else 1
    ensures Inv(skew, RunScript(w, g, r, baseline, calls, lost))
  {
    hide Script, CounterIs, LogOf;
    var v := RunScript(w, g, r, baseline, calls, lost);
    forall tenant, day
      ensures Balanced(skew, v, tenant, day)
    {
      assert Balanced(skew, w, tenant, day);
      if tenant != r.tenant || day != DayOf(r.now) {
        BalancedElsewhere(skew, w, g, r, baseline, calls, lost, tenant, day);
      } else if Loads(w.log, tenant, day) == [] {
        BalancedFirst(skew, w, g, r, baseline, calls, lost);
      } else {
        BalancedAgain(skew, w, g, r, baseline, calls, lost);
      }
    }
    if baseline.Some? {
      SecondCallNeverAsks(w.db, w.clock, r, baseline.value);
    }
  }

  lemma SameCountersBalanced(skew: Skew, w: World, v: World)
    requires AllBalanced(skew, w) && v.db == w.db && v.log == w.log
    ensures AllBalanced(skew, v)
  {
    forall tenant, day
      ensures Balanced(skew, v, tenant, day)
    {
      assert Balanced(skew, w, tenant, day);
      BothCounters(skew, w, tenant, day);
      BothCounters(skew, v, tenant, day);
    }
  }

  lemma StepKeepsInv(skew: Skew, w: World, a: Action)
    requires Inv(skew, w) && WithinGrace(skew) && Step(skew, w, a).Some?
    ensures Inv(skew, Step(skew, w, a).value)
  {
    hide AllBalanced, RunScript, OnTime;
    match a
    case Call(g, lost) =>
      match w.gateways[g] {
        case Asking(r) => CallKeepsInv(skew, w, g, r, None, 1, lost);
        case Returning(r, baseline) => CallKeepsInv(skew, w, g, r, Some(baseline), 2, lost);
        case _ =>
      }
    case _ => SameCountersBalanced(skew, w, Step(skew, w, a).value);
  }

  function Execute(skew: Skew, w: World, actions: seq<Action>): Option<World>
    decreases |actions|
  {
    if actions == [] then Some(w)
    else
      match Step(skew, w, actions[0])
      case None => None
      case Some(v) => Execute(skew, v, actions[1..])
  }

  lemma {:induction false} ExecuteKeepsInv(skew: Skew, w: World, actions: seq<Action>)
    requires Inv(skew, w) && WithinGrace(skew)
    ensures forall v :: Execute(skew, w, actions) == Some(v) ==> Inv(skew, v)
    decreases |actions|
  {
    if actions != [] && Step(skew, w, actions[0]).Some? {
      StepKeepsInv(skew, w, actions[0]);
      ExecuteKeepsInv(skew, Step(skew, w, actions[0]).value, actions[1..]);
    }
  }

  /**
   Under any interleaving, each day counter equals its baseline, loaded exactly
   once, plus the granted reservations; its key outlives the UTC day; and every
   caller is answered after at most two script calls, never with another
   request to bootstrap.
   */
  lemma QuotaIsConserved(skew: Skew, gateways: nat, actions: seq<Action>, tenant: string, day: int)
    requires WithinGrace(skew)
    ensures forall w :: Execute(skew, NewWorld(gateways), actions) == Some(w) ==>
            var loads := Loads(w.log, tenant, day);
            && (|loads| == 0 ==>
                  && EventsKey(tenant, day) !in w.db && BytesKey(tenant, day) !in w.db
                  && ReservedEvents(w.log, tenant, day) == 0 && ReservedBytes(w.log, tenant, day) == 0)
            && |loads| <= 1
            && (|loads| == 1 ==>
                  && EventsKey(tenant, day) in w.db && BytesKey(tenant, day) in w.db
                  && w.db[EventsKey(tenant, day)].value == loads[0].events + ReservedEvents(w.log, tenant, day)
                  && w.db[BytesKey(tenant, day)].value == loads[0].bytes + ReservedBytes(w.log, tenant, day)
                  && w.db[EventsKey(tenant, day)].expiresAt.Some?
                  && w.db[EventsKey(tenant, day)].expiresAt.value >= (day + 1) * DAY
                  && w.db[BytesKey(tenant, day)].expiresAt.Some?
                  && w.db[BytesKey(tenant, day)].expiresAt.value >= (day + 1) * DAY)
            && forall g :: 0 <= g < |w.gateways| && w.gateways[g].Finished? ==>
                 w.gateways[g].calls <= 2 && w.gateways[g].outcome != Replied(NeedsBootstrap)
  {
    var start := NewWorld(gateways);
    forall t, d
      ensures Balanced(skew, start, t, d)
    {
      assert Loads([], t, d) == [];
    }
    ExecuteKeepsInv(skew, start, actions);
    if Execute(skew, start, actions).Some? {
      assert Balanced(skew, Execute(skew, start, actions).value, tenant, day);
      BothCounters(skew, Execute(skew, start, actions).value, tenant, day);
    }
  }

  // ----- progress -----

  /** A run after which the gateway has an answer of the script other than the request for a baseline. */
  ghost predicate Answers(skew: Skew, w: World, actions: seq<Action>, g: nat) {
    && Execute(skew, w, actions).Some?
    && var v := Execute(skew, w, actions).value;
       g < |v.gateways| && v.gateways[g].Finished? && v.gateways[g].outcome.Replied? && !v.gateways[g].outcome.reply.NeedsBootstrap?
  }

  lemma ReturningIsAnswered(skew: Skew, w: World, g: nat)
    requires g < |w.gateways| && w.gateways[g].Returning? && OnTime(skew, w.gateways[g].request, w.clock)
    ensures Answers(skew, w, [Call(g, false)], g)
  {
    hide Script;
    var r, baseline := w.gateways[g].request, w.gateways[g].baseline;
    SecondCallNeverAsks(w.db, w.clock, r, baseline);
    var v := Step(skew, w, Call(g, false)).value;
    assert [Call(g, false)][1..] == [] && Execute(skew, v, []) == Some(v);
  }

  /** Whatever others have done, a gateway that asks on time can get its answer, with one read of the usage at most. */
  lemma AskingCanBeAnswered(skew: Skew, w: World, g: nat, usage: Baseline)
    requires g < |w.gateways| && w.gateways[g].Asking? && OnTime(skew, w.gateways[g].request, w.clock)
    ensures Answers(skew, w, [Call(g, false)], g) || Answers(skew, w, [Call(g, false), ReadUsage(g, Some(usage)), Call(g, false)], g)
  {
    hide Script;
    var v := Step(skew, w, Call(g, false)).value;
    assert [Call(g, false)][1..] == [] && Execute(skew, v, []) == Some(v);
    if v.gateways[g].Bootstrapping? {
      var u := Step(skew, v, ReadUsage(g, Some(usage))).value;
      ReturningIsAnswered(skew, u, g);
      var actions := [Call(g, false), ReadUsage(g, Some(usage)), Call(g, false)];
      assert actions[1..][1..] == [Call(g, false)];
      assert Execute(skew, v, actions[1..]) == Execute(skew, u, [Call(g, false)]);
      assert Execute(skew, w, actions) == Execute(skew, v, actions[1..]);
    }
  }

  // ----- one caller -----

  /**
   Reserves, loading the day's usage and reserving again when told to. `others`
   and `later` are what the store has become by the second call.
   */
  method ReserveIngestBatch(store: Store, r: Request, usage: Option<Baseline>, others: Database, later: int) returns (g: Gateway)
    modifies store
    ensures var (db, reply) := Script(old(store.db), old(store.clock), r, None);
            if !reply.NeedsBootstrap? then store.db == db && g == AfterCall(r, reply, 1, false)
            else if usage.None? then store.db == old(store.db) && g == Finished(Errored, 1)
            else (store.db, g) == (Script(others, later, r, usage).0, AfterCall(r, Script(others, later, r, usage).1, 2, false))
    ensures g.Finished? && BoundedCalls(g)
  {
    hide Loaded;
    var baseline: Option<Baseline> := None;
    var result := store.Reserve(r, baseline);
    if result.NeedsBootstrap? {
      if usage.None? {
        return Finished(Errored, 1);
      }
      baseline := usage;
      store.db, store.clock := others, later;
      result := store.Reserve(r, baseline);
      SecondCallNeverAsks(others, later, r, usage.value);
      return Finished(Replied(result), 2);
    }
    return Finished(Replied(result), 1);
  }

  // ----- licensed bytes -----

  const GIBIBYTE := 1_073_741_824.0
  const MAX_INT64 := 0x7fff_ffff_ffff_ffff

  /** The byte limit of a licence in gigabytes; zero means unlimited. */
  function LicensedBytes(gigabytes: real): int {
    if gigabytes <= 0.0 then 0
    else if gigabytes * GIBIBYTE >= MAX_INT64 as real then MAX_INT64
    else (gigabytes * GIBIBYTE).Floor
  }

  /** A licence for a tenth of a byte sets no limit. */
  lemma TinyLicenceIsUnlimited()
    ensures var gigabytes := 0.1 / GIBIBYTE; gigabytes > 0.0 && LicensedBytes(gigabytes) == 0
  {
    var gigabytes := 0.1 / GIBIBYTE;
    assert gigabytes * GIBIBYTE == 0.1;
    assert (0.1).Floor == 0;
  }

  /** The limit is the largest whole number of bytes within the licence and the integer range. */
  lemma LicensedBytesExactly(gigabytes: real, bytes: int)
    requires gigabytes > 0.0
    ensures LicensedBytes(gigabytes) == bytes <==>
            && 0 <= bytes <= 0x7fff_ffff_ffff_ffff && bytes as real <= gigabytes * 1_073_741_824.0
            && (bytes < 0x7fff_ffff_ffff_ffff ==> gigabytes * 1_073_741_824.0 < (bytes + 1) as real)
  {
  }

  /** A positive licence is enforced exactly when it grants at least one byte; below that it reads as unlimited. */
  lemma PositiveLicenceIsEnforced(gigabytes: real)
    requires gigabytes > 0.0
    ensures LicensedBytes(gigabytes) > 0 <==> gigabytes * GIBIBYTE >= 1.0
    ensures LicensedBytes(gigabytes) as real <= gigabytes * GIBIBYTE
  {
  }
}
