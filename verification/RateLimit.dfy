/**
 The fixed-window limiter in front of agent enrollment: one window per key in a
 bounded table. The whole history of grants is kept as ghost state.
 */
module RateLimit {
  import opened Text
  import opened Ordering

  const DEFAULT_RATE_PER_MINUTE := 600
  const MAXIMUM_ENTRIES := 16384
  const SECOND := 1_000_000_000
  const MINUTE := 60 * SECOND

  datatype Entry = Entry(windowStarted: int, requests: nat)

  // ----- grants in an interval -----

  /** How many of the times lie in [from, to). */
  function GrantsIn(g: seq<int>, from: int, to: int): nat {
    if g == [] then 0
    else GrantsIn(g[..|g| - 1], from, to) + (if from <= g[|g| - 1] < to then 1 else 0)
  }

  ghost predicate Ascending(g: seq<int>) {
    forall i, j :: 0 <= i < j < |g| ==> g[i] <= g[j]
  }

  /** Any `n + 1` consecutive grants span at least `window`. */
  ghost predicate Spread(g: seq<int>, n: nat, window: int) {
    forall i :: 0 <= i < |g| - n ==> g[i] + window <= g[i + n]
  }

  lemma {:induction false} GrantsAfter(g: seq<int>, m: nat, from: int, to: int)
    requires m <= |g| && forall i :: 0 <= i < m ==> g[i] < from
    ensures GrantsIn(g, from, to) <= |g| - m
  {
    if |g| > 0 {
      GrantsAfter(g[..|g| - 1], if m == |g| then m - 1 else m, from, to);
    }
  }

  lemma {:induction false} SpreadBoundsGrants(g: seq<int>, n: nat, window: int, from: int)
    requires Ascending(g) && Spread(g, n, window)
    ensures GrantsIn(g, from, from + window) <= n
  {
    if g != [] {
      var front, last := g[..|g| - 1], g[|g| - 1];
      if last < from + window {
        if |g| > n {
          var m := |g| - n;
          assert g[m - 1] + window <= g[m - 1 + n];
          GrantsAfter(g, m, from, from + window);
        } else {
          GrantsAfter(g, 0, from, from + window);
        }
      } else {
        forall i | 0 <= i < |front| - n
          ensures front[i] + window <= front[i + n]
        {
          assert g[i] + window <= g[i + n];
        }
        SpreadBoundsGrants(front, n, window, from);
      }
    }
  }

  /** The grants of a key and where its last two windows start in them. */
  datatype History = History(grants: seq<int>, previous: nat, current: nat)

  const NO_HISTORY := History([], 0, 0)

  /** Windows hold at most `limit` grants and begin at least one window length apart. */
  ghost predicate Windowed(h: History, limit: nat, window: int) {
    && limit > 0
    && Ascending(h.grants)
    && h.previous <= h.current <= |h.grants| <= h.current + limit
    && h.current <= h.previous + limit
    && (h.grants != [] ==> h.current < |h.grants|)
    && (h.current > 0 ==> h.previous < h.current && h.grants[h.previous] + window <= h.grants[h.current])
    && Spread(h.grants, 2 * limit - 1, window)
  }

  lemma GrantInWindow(h: History, limit: nat, window: int, now: int)
    requires Windowed(h, limit, window) && window > 0 && h.grants != []
    requires |h.grants| < h.current + limit
    requires h.grants[|h.grants| - 1] <= now
    ensures Windowed(h.(grants := h.grants + [now]), limit, window)
  {
    var g := h.grants + [now];
    var n := 2 * limit - 1;
    forall i | 0 <= i < |g| - n
      ensures g[i] + window <= g[i + n]
    {
      if i + n == |g| - 1 {
        assert i <= h.previous && (i < h.previous ==> h.grants[i] <= h.grants[h.previous]);
        assert h.grants[h.current] <= h.grants[|h.grants| - 1];
      }
    }
  }

  lemma GrantOpensWindow(h: History, limit: nat, window: int, now: int)
    requires Windowed(h, limit, window) && window > 0
    requires h.grants != [] ==> h.grants[|h.grants| - 1] <= now && h.grants[h.current] + window <= now
    ensures Windowed(History(h.grants + [now], h.current, |h.grants|), limit, window)
  {
    var g := h.grants + [now];
    var n := 2 * limit - 1;
    forall i | 0 <= i < |g| - n
      ensures g[i] + window <= g[i + n]
    {
      if i + n == |g| - 1 {
        assert i <= h.current && (i < h.current ==> h.grants[i] <= h.grants[h.current]);
      }
    }
  }

  // ----- the limiter -----

  predicate IsLive(e: Entry, window: int, now: int) {
    now < e.windowStarted + window
  }

  /** The keys whose window has not ended. */
  function LiveKeys(entries: map<string, Entry>, window: int, now: int): set<string> {
    set k | k in entries && IsLive(entries[k], window, now)
  }

  /** The entry of a key after a granted request. */
  function After(entries: map<string, Entry>, key: string, window: int, now: int): Entry {
    if key in LiveKeys(entries, window, now) then Entry(entries[key].windowStarted, entries[key].requests + 1)
    else Entry(now, 1)
  }

  function NormalizeKey(key: string): string {
    if Trim(key) == "" then "unknown" else Trim(key)
  }

  /** Equal after trimming, a blank key standing for "unknown". */
  predicate SameClient(a: string, b: string) {
    || Trim(a) == Trim(b)
    || (Trim(a) in {"", "unknown"} && Trim(b) in {"", "unknown"})
  }

  /** Two keys share a window exactly when they are the same client. */
  lemma NormalizeKeyExactly(a: string, b: string)
    ensures NormalizeKey(a) == NormalizeKey(b) <==> SameClient(a, b)
  {
  }

  ghost function HistoryIn(histories: map<string, History>, key: string): History {
    if key in histories then histories[key] else NO_HISTORY
  }

  /** The entry of a key is its current window; a key without an entry has none running. */
  ghost predicate Agrees(key: string, entries: map<string, Entry>, histories: map<string, History>, limit: nat, window: int, clock: int) {
    var h := HistoryIn(histories, key);
    && Windowed(h, limit, window)
    && (h.grants != [] ==> h.grants[|h.grants| - 1] <= clock)
    && (if key in entries then
          h.grants != [] && entries[key] == Entry(h.grants[h.current], |h.grants| - h.current)
        else h.grants != [] ==> h.grants[h.current] + window <= clock)
  }

  ghost predicate AllAgree(entries: map<string, Entry>, histories: map<string, History>, limit: nat, window: int, clock: int) {
    forall k :: Agrees(k, entries, histories, limit, window, clock)
  }

  lemma RemoveKeepsAgreement(
      key: string, entries: map<string, Entry>, rest: map<string, Entry>, histories: map<string, History>, limit: nat, window: int, clock: int)
    requires AllAgree(entries, histories, limit, window, clock)
    requires key in entries && !IsLive(entries[key], window, clock) && rest == entries - {key}
    ensures AllAgree(rest, histories, limit, window, clock)
    ensures |rest| < |entries|
  {
    hide Windowed;
    assert rest.Keys == entries.Keys - {key};
    forall k
      ensures Agrees(k, rest, histories, limit, window, clock)
    {
      assert Agrees(k, entries, histories, limit, window, clock);
    }
  }

  lemma LaterClockKeepsAgreement(
      entries: map<string, Entry>, histories: map<string, History>, limit: nat, window: int, clock: int, now: int)
    requires AllAgree(entries, histories, limit, window, clock) && clock <= now
    ensures AllAgree(entries, histories, limit, window, now)
  {
    hide Windowed;
    forall k
      ensures Agrees(k, entries, histories, limit, window, now)
    {
      assert Agrees(k, entries, histories, limit, window, clock);
    }
  }

  /** Changing the entry and the history of one key. */
  lemma SetKeepsAgreement(
      key: string, e: Entry, h: History,
      entries: map<string, Entry>, histories: map<string, History>,
      entries': map<string, Entry>, histories': map<string, History>, limit: nat, window: int, clock: int)
    requires AllAgree(entries, histories, limit, window, clock)
    requires entries' == entries[key := e] && histories' == histories[key := h]
    requires Windowed(h, limit, window) && h.grants != [] && h.grants[|h.grants| - 1] <= clock
    requires e == Entry(h.grants[h.current], |h.grants| - h.current)
    ensures AllAgree(entries', histories', limit, window, clock)
  {
    hide Windowed;
    forall k
      ensures Agrees(k, entries', histories', limit, window, clock)
    {
      assert Agrees(k, entries, histories, limit, window, clock);
    }
  }

  class IpRateLimiter {
    const limit: nat
    const window: int
    const maxEntries: nat
    var entries: map<string, Entry>
    ghost var clock: int
    ghost var histories: map<string, History>

    ghost function HistoryOf(key: string): History
      reads this
    {
      HistoryIn(histories, key)
    }

    ghost predicate Valid()
      reads this
    {
      && limit > 0 && window > 0 && maxEntries > 0
      && |entries| <= maxEntries
      && AllAgree(entries, histories, limit, window, clock)
    }

    constructor (limit: int, window: int)
      ensures Valid() && entries == map[] && histories == map[] && clock == 0 && maxEntries == MAXIMUM_ENTRIES
      ensures this.limit == (if limit <= 0 then DEFAULT_RATE_PER_MINUTE else limit)
      ensures this.window == (if window <= 0 then MINUTE else window)
    {
      this.limit := if limit <= 0 then DEFAULT_RATE_PER_MINUTE else limit;
      this.window := if window <= 0 then MINUTE else window;
      this.maxEntries := MAXIMUM_ENTRIES;
      entries, histories, clock := map[], map[], 0;
    }

    /** Deletes every entry whose window has ended. */
    method Purge(now: int)
      requires Valid() && clock <= now
      modifies this`entries, this`clock
      ensures Valid() && clock == now
      ensures entries.Keys == LiveKeys(old(entries), window, now)
      ensures forall k :: k in entries ==> entries[k] == old(entries)[k]
    {
      hide AllAgree;
      LaterClockKeepsAgreement(entries, histories, limit, window, clock, now);
      clock := now;
      var rest := entries.Keys;
      ghost var was := entries;
      while rest != {}
        invariant rest <= entries.Keys <= was.Keys && clock == now && Valid()
        invariant forall k :: k in entries ==> entries[k] == was[k]
        invariant forall k :: k in was && k !in rest ==> (k in entries <==> IsLive(was[k], window, now))
      {
        var candidate :| candidate in rest;
        rest := rest - {candidate};
        if !IsLive(entries[candidate], window, now) {
          RemoveExpired(candidate);
        }
      }
    }

    method RemoveExpired(key: string)
      requires Valid() && key in entries && !IsLive(entries[key], window, clock)
      modifies this`entries
      ensures Valid() && entries == old(entries) - {key}
    {
      RemoveKeepsAgreement(key, entries, entries - {key}, histories, limit, window, clock);
      entries := entries - {key};
    }

    /** One request at time `now`. */
    method Allow(rawKey: string, now: int) returns (granted: bool, retryAfter: int)
      requires Valid() && clock <= now
      modifies this
      ensures Valid() && clock == now
      ensures var key := NormalizeKey(rawKey);
              && HistoryOf(key).grants == old(HistoryOf(key)).grants + (if granted then [now] else [])
              && (forall k :: k != key ==> HistoryOf(k) == old(HistoryOf(k)))
              && (forall other :: !SameClient(other, rawKey) ==>
                    HistoryOf(NormalizeKey(other)) == old(HistoryOf(NormalizeKey(other))))
              && (forall k :: k in LiveKeys(old(entries), window, now) && (k != key || !granted) ==>
                    k in entries && entries[k] == old(entries)[k])
              && entries.Keys <= old(entries).Keys + {key}
              && (granted ==> key in entries && entries[key] == After(old(entries), key, window, now))
              && granted == (if key in LiveKeys(old(entries), window, now) then old(entries)[key].requests < limit
                             else |LiveKeys(old(entries), window, now)| < maxEntries)
              && (if granted then retryAfter == 0
                  else if key in LiveKeys(old(entries), window, now) then
                    retryAfter > 0 && now + retryAfter == old(entries)[key].windowStarted + window
                  else retryAfter == window)
    {
      var key := NormalizeKey(rawKey);
      forall other | !SameClient(other, rawKey)
        ensures NormalizeKey(other) != key
      {
        NormalizeKeyExactly(other, rawKey);
      }
      hide NormalizeKey, SameClient;
      ghost var live := LiveKeys(entries, window, now);
      hide AllAgree;
      LaterClockKeepsAgreement(entries, histories, limit, window, clock, now);
      clock := now;
      if key in entries && !IsLive(entries[key], window, now) {
        RemoveExpired(key);
        assert LiveKeys(entries, window, now) == live;
      }
      if key !in entries {
        if |entries| >= maxEntries {
          Purge(now);
        }
        assert entries.Keys >= live && LiveKeys(entries, window, now) == live;
        SubsetCardinality(live, entries.Keys);
        if |entries| >= maxEntries {
          assert entries.Keys == live;
          return false, window;
        }
        Open(key, now);
        return true, 0;
      }
      if entries[key].requests >= limit {
        retryAfter := entries[key].windowStarted + window - now;
        if retryAfter <= 0 {
          retryAfter := SECOND;
        }
        return false, retryAfter;
      }
      Extend(key, now);
      return true, 0;
    }

    /** Starts a window for a key without one. */
    method Open(key: string, now: int)
      requires Valid() && clock == now && key !in entries && |entries| < maxEntries
      modifies this`entries, this`histories
      ensures Valid() && entries == old(entries)[key := Entry(now, 1)]
      ensures HistoryOf(key).grants == old(HistoryOf(key)).grants + [now]
      ensures forall k :: k != key ==> HistoryOf(k) == old(HistoryOf(k))
    {
      ghost var h := HistoryOf(key);
      assert Agrees(key, entries, histories, limit, window, clock);
      GrantOpensWindow(h, limit, window, now);
      ghost var h' := History(h.grants + [now], h.current, |h.grants|);
      ghost var was, before := entries, histories;
      entries, histories := entries[key := Entry(now, 1)], histories[key := h'];
      SetKeepsAgreement(key, Entry(now, 1), h', was, before, entries, histories, limit, window, clock);
    }

    /** Counts one more request in the running window. */
    method Extend(key: string, now: int)
      requires Valid() && clock == now && key in entries && entries[key].requests < limit
      modifies this`entries, this`histories
      ensures Valid() && entries == old(entries)[key := Entry(old(entries)[key].windowStarted, old(entries)[key].requests + 1)]
      ensures HistoryOf(key).grants == old(HistoryOf(key)).grants + [now]
      ensures forall k :: k != key ==> HistoryOf(k) == old(HistoryOf(k))
    {
      ghost var h := HistoryOf(key);
      assert Agrees(key, entries, histories, limit, window, clock);
      GrantInWindow(h, limit, window, now);
      ghost var h' := h.(grants := h.grants + [now]);
      var entry := Entry(entries[key].windowStarted, entries[key].requests + 1);
      ghost var was, before := entries, histories;
      entries, histories := entries[key := entry], histories[key := h'];
      SetKeepsAgreement(key, entry, h', was, before, entries, histories, limit, window, clock);
    }

    /** Any half-open interval of one window length holds fewer than twice the limit of a key's grants. */
    lemma FewerThanTwiceTheLimit(key: string, from: int)
      requires Valid()
      ensures GrantsIn(HistoryOf(key).grants, from, from + window) < 2 * limit
    {
      assert Agrees(key, entries, histories, limit, window, clock);
      SpreadBoundsGrants(HistoryOf(key).grants, 2 * limit - 1, window, from);
    }
  }

  lemma GrantCounts(g: seq<int>, now: int, from: int, to: int)
    ensures GrantsIn(g + [now], from, to) == GrantsIn(g, from, to) + (if from <= now < to then 1 else 0)
  {
    assert (g + [now])[..|g|] == g;
  }

  lemma NoGrants(from: int, to: int)
    ensures GrantsIn([], from, to) == 0
  {
  }

  /** When the requests below are made: one, then limit - 1 just before its window ends, then limit in the next. */
  function RequestTime(i: nat, limit: nat, window: int): int {
    if i == 0 then 0 else if i < limit then window - 1 else window
  }

  /** The bound is reached: a run with 2 * limit - 1 grants in one window length. */
  method ReachTheBound(limit: nat, window: int, rawKey: string) returns (limiter: IpRateLimiter)
    requires limit > 0 && window > 1
    ensures fresh(limiter) && limiter.Valid() && limiter.limit == limit && limiter.window == window
    ensures GrantsIn(limiter.HistoryOf(NormalizeKey(rawKey)).grants, window - 1, window - 1 + window) == 2 * limit - 1
  {
    hide NormalizeKey, SameClient, Windowed, AllAgree, GrantsIn;
    NoGrants(window - 1, window - 1 + window);
    limiter := new IpRateLimiter(limit, window);
    var key := NormalizeKey(rawKey);
    for i := 0 to 2 * limit
      invariant fresh(limiter) && limiter.Valid() && limiter.limit == limit && limiter.window == window
      invariant limiter.maxEntries == MAXIMUM_ENTRIES && limiter.clock <= RequestTime(i, limit, window)
      invariant limiter.entries.Keys == if i == 0 then {} else {key}
      invariant i > 0 ==> limiter.entries[key] == if i <= limit then Entry(0, i) else Entry(window, i - limit)
      invariant GrantsIn(limiter.HistoryOf(key).grants, window - 1, window - 1 + window) == if i == 0 then 0 else i - 1
    {
      var now := RequestTime(i, limit, window);
      assert LiveKeys(limiter.entries, window, now) == if i == 0 || i == limit then {} else {key};
      GrantCounts(limiter.HistoryOf(key).grants, now, window - 1, window - 1 + window);
      var _, _ := limiter.Allow(rawKey, now);
    }
  }
}
