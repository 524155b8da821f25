/**
 The distributed ingest quota: the script that reserves atomically in the shared
 store, and the two-call bootstrap protocol of many gateways interleaving on it.
 Times are milliseconds; integers are unbounded.
 */
module IngestQuota {
  import opened Options

  const SECOND := 1000
  const MINUTE := 60 * SECOND
  const HOUR := 60 * MINUTE
  const DAY := 24 * HOUR
  const SECOND_KEY_TTL := 3 * SECOND

  datatype Key = EventsKey(tenant: string, day: int) | BytesKey(tenant: string, day: int) | SecondKey(tenant: string, second: int)

  datatype Cell = Cell(value: int, expiresAt: Option<int>)

  type Database = map<Key, Cell>

  datatype Limits = Limits(eventsPerDay: nat, bytesPerDay: nat, eventsPerSecond: nat)

  datatype Baseline = Baseline(events: nat, bytes: nat)

  datatype Request = Request(tenant: string, now: nat, events: nat, bytes: nat, limits: Limits)

  datatype Reply =
    | NeedsBootstrap
    | Denied(limit: Exceeded, events: int, bytes: int)
    | Granted(events: int, bytes: int)

  datatype Exceeded = EventsPerDay | GbPerDay | Eps

  // ----- keys and lifetimes -----

  function DayOf(now: nat): nat {
    now / DAY
  }

  /** Lifetime of the day keys: 25 hours from the start of the day, never under a minute. */
  function DayTtl(now: nat): (ttl: int)
    ensures now + ttl == DayOf(now) * DAY + 25 * HOUR && ttl > HOUR
  {
    var ttl := DayOf(now) * DAY + 25 * HOUR - now;
    if ttl < MINUTE then MINUTE else ttl
  }

  function EventsKeyOf(r: Request): Key {
    EventsKey(r.tenant, DayOf(r.now))
  }

  function BytesKeyOf(r: Request): Key {
    BytesKey(r.tenant, DayOf(r.now))
  }

  function SecondKeyOf(r: Request): Key {
    SecondKey(r.tenant, r.now / SECOND)
  }

  // ----- the store's commands -----

  /** A key that has expired is missing. */
  predicate Present(db: Database, k: Key, clock: int) {
    k in db && (db[k].expiresAt.Some? ==> clock < db[k].expiresAt.value)
  }

  function ValueOf(db: Database, k: Key, clock: int): int {
    if Present(db, k, clock) then db[k].value else 0
  }

  /** INCRBY keeps the expiry of a present key and creates a missing one without expiry. */
  function IncrBy(db: Database, k: Key, n: int, clock: int): Database {
    db[k := if Present(db, k, clock) then db[k].(value := db[k].value + n) else Cell(n, None)]
  }

  function PExpire(db: Database, k: Key, ttl: int, clock: int): Database {
    if Present(db, k, clock) then db[k := db[k].(expiresAt := Some(clock + ttl))] else db
  }

  class Store {
    var db: Database
    var clock: int

    method IncrementBy(k: Key, n: int) returns (value: int)
      modifies this`db
      ensures db == IncrBy(old(db), k, n, clock) && value == ValueOf(old(db), k, clock) + n
    {
      var cell := if Present(db, k, clock) then db[k].(value := db[k].value + n) else Cell(n, None);
      db := db[k := cell];
      value := cell.value;
    }

    method Expire(k: Key, ttl: int)
      modifies this`db
      ensures db == PExpire(old(db), k, ttl, clock)
    {
      if Present(db, k, clock) {
        db := db[k := db[k].(expiresAt := Some(clock + ttl))];
      }
    }

    /** -2 for a missing key, -1 for one without expiry. */
    method TimeToLive(k: Key) returns (ttl: int)
      ensures (ttl == -2) == !Present(db, k, clock)
      ensures ttl < 0 <==> !Present(db, k, clock) || db[k].expiresAt.None?
    {
      if !Present(db, k, clock) {
        return -2;
      }
      return if db[k].expiresAt.None? then -1 else db[k].expiresAt.value - clock;
    }

    /** Loads a missing day counter from the baseline. */
    method LoadMissing(k: Key, base: int, ttl: int) returns (current: int)
      requires ttl > 0
      modifies this`db
      ensures db == old(db)[k := Opened(old(db), k, clock, base, ttl)] && current == db[k].value
    {
      var left := TimeToLive(k);
      if left == -2 {
        var _ := IncrementBy(k, base);
        Expire(k, ttl);
      }
      current := IncrementBy(k, 0);
    }

    method OpenSecond(k: Key) returns (current: int)
      modifies this`db
      ensures db == old(db)[k := OpenedSecond(old(db), k, clock)] && current == db[k].value
    {
      current := IncrementBy(k, 0);
      var left := TimeToLive(k);
      if left < 0 {
        Expire(k, SECOND_KEY_TTL);
      }
    }

    /** Adds a reservation to a day counter and renews its lifetime. */
    method Charge(k: Key, n: int, ttl: int)
      requires Present(db, k, clock)
      modifies this`db
      ensures db == old(db)[k := Cell(old(db)[k].value + n, Some(clock + ttl))]
    {
      var _ := IncrementBy(k, n);
      Expire(k, ttl);
    }

    /** The reservation script, command by command; commands on different keys are grouped by key. */
    method Reserve(r: Request, baseline: Option<Baseline>) returns (reply: Reply)
      modifies this`db
      ensures (db, reply) == Script(old(db), clock, r, baseline)
    {
      hide DayTtl, DayOf, Opened, OpenedSecond;
      var events, bytes, second, ttl := EventsKeyOf(r), BytesKeyOf(r), SecondKeyOf(r), DayTtl(r.now);
      var eventsTtl := TimeToLive(events);
      var bytesTtl := TimeToLive(bytes);
      if (eventsTtl == -2 || bytesTtl == -2) && baseline.None? {
        return NeedsBootstrap;
      }
      var base := if baseline.Some? then baseline.value else Baseline(0, 0);
      var currentEvents := LoadMissing(events, base.events, ttl);
      var currentBytes := LoadMissing(bytes, base.bytes, ttl);
      var currentEps := OpenSecond(second);
      var nextEvents, nextBytes, nextEps := currentEvents + r.events, currentBytes + r.bytes, currentEps + r.events;
      if r.limits.eventsPerDay > 0 && nextEvents > r.limits.eventsPerDay {
        return Denied(EventsPerDay, currentEvents, currentBytes);
      }
      if r.limits.bytesPerDay > 0 && nextBytes > r.limits.bytesPerDay {
        return Denied(GbPerDay, currentEvents, currentBytes);
      }
      if r.limits.eventsPerSecond > 0 && nextEps > r.limits.eventsPerSecond {
        return Denied(Eps, currentEvents, currentBytes);
      }
      Charge(events, r.events, ttl);
      Charge(bytes, r.bytes, ttl);
      var _ := IncrementBy(second, r.events);
      return Granted(nextEvents, nextBytes);
    }
  }

  // ----- the script as one atomic step -----

  /** A day counter before the reservation: the stored one, or the baseline where it was missing. */
  function Opened(db: Database, k: Key, clock: int, base: int, ttl: int): (c: Cell)
    ensures ttl > 0 && c.expiresAt.Some? ==> clock < c.expiresAt.value
  {
    if Present(db, k, clock) then db[k] else Cell(base, Some(clock + ttl))
  }

  function OpenedSecond(db: Database, k: Key, clock: int): (c: Cell)
    ensures c.expiresAt.Some? && clock < c.expiresAt.value
  {
    var cell := if Present(db, k, clock) then db[k] else Cell(0, None);
    if cell.expiresAt.None? then cell.(expiresAt := Some(clock + SECOND_KEY_TTL)) else cell
  }

  function Verdict(r: Request, events: int, bytes: int, eps: int): Option<Exceeded> {
    if r.limits.eventsPerDay > 0 && events + r.events > r.limits.eventsPerDay then Some(EventsPerDay)
    else if r.limits.bytesPerDay > 0 && bytes + r.bytes > r.limits.bytesPerDay then Some(GbPerDay)
    else if r.limits.eventsPerSecond > 0 && eps + r.events > r.limits.eventsPerSecond then Some(Eps)
    else None
  }

  /** The three counters as the reservation finds them. */
  function Loaded(db: Database, clock: int, r: Request, base: Baseline): Database {
    var e := db[EventsKeyOf(r) := Opened(db, EventsKeyOf(r), clock, base.events, DayTtl(r.now))];
    var b := e[BytesKeyOf(r) := Opened(e, BytesKeyOf(r), clock, base.bytes, DayTtl(r.now))];
    b[SecondKeyOf(r) := OpenedSecond(b, SecondKeyOf(r), clock)]
  }

  /** The check and the charge on loaded counters. */
  function Settle(db: Database, clock: int, r: Request): (Database, Reply)
    requires EventsKeyOf(r) in db && BytesKeyOf(r) in db && SecondKeyOf(r) in db
  {
    var e, b, s := db[EventsKeyOf(r)].value, db[BytesKeyOf(r)].value, db[SecondKeyOf(r)];
    var verdict := Verdict(r, e, b, s.value);
    if verdict.Some? then (db, Denied(verdict.value, e, b))
    else
      var expiry := Some(clock + DayTtl(r.now));
      (db[EventsKeyOf(r) := Cell(e + r.events, expiry)][BytesKeyOf(r) := Cell(b + r.bytes, expiry)]
         [SecondKeyOf(r) := s.(value := s.value + r.events)],
       Granted(e + r.events, b + r.bytes))
  }

  function Script(db: Database, clock: int, r: Request, baseline: Option<Baseline>): (Database, Reply) {
    if (!Present(db, EventsKeyOf(r), clock) || !Present(db, BytesKeyOf(r), clock)) && baseline.None? then
      (db, NeedsBootstrap)
    else
      Settle(Loaded(db, clock, r, if baseline.Some? then baseline.value else Baseline(0, 0)), clock, r)
  }

  /** A script call that brings a baseline never asks for one. */
  lemma SecondCallNeverAsks(db: Database, clock: int, r: Request, baseline: Baseline)
    ensures !Script(db, clock, r, Some(baseline)).1.NeedsBootstrap?
  {
  }

  /** A grant leaves every counter within its positive limit, raised by exactly the reservation. */
  lemma GrantRespectsLimits(db: Database, clock: int, r: Request, baseline: Option<Baseline>)
    ensures var (after, reply) := Script(db, clock, r, baseline);
            reply.Granted? ==>
              && (r.limits.eventsPerDay > 0 ==> after[EventsKeyOf(r)].value <= r.limits.eventsPerDay)
              && (r.limits.bytesPerDay > 0 ==> after[BytesKeyOf(r)].value <= r.limits.bytesPerDay)
              && (r.limits.eventsPerSecond > 0 ==> after[SecondKeyOf(r)].value <= r.limits.eventsPerSecond)
              && reply == Granted(after[EventsKeyOf(r)].value, after[BytesKeyOf(r)].value)
  {
  }

  /** A counter that adding `n` would take over its positive limit. */
  predicate Exceeds(limit: nat, current: int, n: nat) {
    limit > 0 && current + n > limit
  }

  /** What the counters read before the reservation: a missing day counter reads as the baseline. */
  function Before(db: Database, k: Key, clock: int, base: nat): int {
    if Present(db, k, clock) then db[k].value else base
  }

  /**
   The script on the readings of the three counters. It asks for the baseline
   exactly when a day counter is missing and none was brought, and then changes
   nothing. Otherwise it grants exactly when no limit would be exceeded, raising
   all three counters by the reservation, and else names the first limit in the
   order day events, day bytes, events per second, and raises none.
   */
  lemma ReserveExactly(db: Database, clock: int, r: Request, baseline: Option<Baseline>)
    ensures var (after, reply) := Script(db, clock, r, baseline);
            var (ek, bk, sk) := (EventsKey(r.tenant, r.now / 86_400_000), BytesKey(r.tenant, r.now / 86_400_000), SecondKey(r.tenant, r.now / 1000));
            var missing := !Present(db, ek, clock) || !Present(db, bk, clock);
            if missing && baseline.None? then reply == NeedsBootstrap && after == db
            else
              var base := if baseline.Some? then baseline.value else Baseline(0, 0);
              var (e, b, s) := (Before(db, ek, clock, base.events), Before(db, bk, clock, base.bytes), Before(db, sk, clock, 0));
              var (tooMany, tooLarge, tooFast) :=
                (Exceeds(r.limits.eventsPerDay, e, r.events), Exceeds(r.limits.bytesPerDay, b, r.bytes), Exceeds(r.limits.eventsPerSecond, s, r.events));
              var granted := !tooMany && !tooLarge && !tooFast;
              && reply == (if granted then Granted(e + r.events, b + r.bytes)
                           else Denied(if tooMany then EventsPerDay else if tooLarge then GbPerDay else Eps, e, b))
              && ValueOf(after, ek, clock) == e + (if granted then r.events else 0)
              && ValueOf(after, bk, clock) == b + (if granted then r.bytes else 0)
              && ValueOf(after, sk, clock) == s + (if granted then r.events else 0)
  {
  }

  /** Other keys stay, and all three counters get a lifetime: the day keys a renewed one on a grant, the second key three seconds when it had none. */
  lemma ReserveKeepsOthers(db: Database, clock: int, r: Request, baseline: Option<Baseline>)
    ensures var (after, reply) := Script(db, clock, r, baseline);
            && (forall k :: k != EventsKeyOf(r) && k != BytesKeyOf(r) && k != SecondKeyOf(r) ==>
                  (k in after <==> k in db) && (k in db ==> after[k] == db[k]))
            && (!reply.NeedsBootstrap? ==>
                  && SecondKeyOf(r) in after
                  && after[SecondKeyOf(r)].expiresAt ==
                       (if Present(db, SecondKeyOf(r), clock) && db[SecondKeyOf(r)].expiresAt.Some? then db[SecondKeyOf(r)].expiresAt
                        else Some(clock + 3000)))
            && (reply.Granted? ==>
                  && EventsKeyOf(r) in after && after[EventsKeyOf(r)].expiresAt == Some(clock + DayTtl(r.now))
                  && BytesKeyOf(r) in after && after[BytesKeyOf(r)].expiresAt == Some(clock + DayTtl(r.now)))
  {
  }
}
