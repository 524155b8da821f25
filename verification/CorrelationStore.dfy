/**
 The in-memory correlation store: one specification step per observation, and
 the class that performs it in place on the slices' backing arrays.
 */
module CorrelationStore {
  import opened Options
  import opened Ordering
  import opened Text
  import opened Correlation
  import opened CorrelationEngine

  const SECOND := 1_000_000_000
  const MAXIMUM_TIMESPAN_SECONDS := 86_400

  datatype GroupKey = GroupKey(tenant: string, rule: string, version: string, group: string)

  /** `time` counts nanoseconds from the zero time. */
  datatype Observation = Observation(
    key: GroupKey, sources: seq<string>, event: string, time: int, value: string, spec: Spec)

  /** What the store remembers of a hit it has accepted. */
  datatype Mark = Mark(key: GroupKey, source: string, event: string)

  datatype Fingerprint = Fingerprint(key: GroupKey, trigger: string, events: seq<string>)

  datatype Outcome = Observed(evaluation: Evaluation) | Invalid

  datatype State = State(
    records: map<GroupKey, seq<Record>>, emissions: set<Fingerprint>, observed: set<Mark>)

  const EMPTY := State(map[], {}, {})

  predicate ValidObservation(o: Observation) {
    && Trim(o.key.tenant) != "" && Trim(o.key.rule) != "" && Trim(o.key.version) != ""
    && Trim(o.key.group) != "" && Trim(o.event) != "" && o.time != 0 && o.sources != []
    && 0 < o.spec.timespanSeconds <= MAXIMUM_TIMESPAN_SECONDS
  }

  function Timespan(spec: Spec): int {
    spec.timespanSeconds * SECOND
  }

  function MarkOf(o: Observation, source: string): Mark {
    Mark(o.key, source, o.event)
  }

  function RecordOf(o: Observation, source: string): Record {
    Record(source, o.event, o.time, o.value)
  }

  /** The sources of `o` not yet recorded for its event and key. */
  function FreshSources(o: Observation, sources: seq<string>, observed: set<Mark>): (t: seq<string>)
    ensures forall x :: x in t <==> x in sources && MarkOf(o, x) !in observed
  {
    if sources == [] then []
    else
      assert sources == [sources[0]] + sources[1..];
      if MarkOf(o, sources[0]) in observed then FreshSources(o, sources[1..], observed)
      else [sources[0]] + FreshSources(o, sources[1..], observed)
  }

  function MarksFor(o: Observation, sources: seq<string>): set<Mark> {
    set x | x in sources :: MarkOf(o, x)
  }

  function RecordsFor(o: Observation, sources: seq<string>): (t: seq<Record>) {
    seq(|sources|, i requires 0 <= i < |sources| => RecordOf(o, sources[i]))
  }

  function NewSources(s: State, o: Observation): seq<string> {
    FreshSources(o, UniqueStrings(o.sources), s.observed)
  }

  function FreshRecords(s: State, o: Observation): seq<Record> {
    RecordsFor(o, NewSources(s, o))
  }

  function Within(records: seq<Record>, from: int, to: int): seq<Record> {
    if records == [] then []
    else
      var front, last := records[..|records| - 1], records[|records| - 1];
      Within(front, from, to) + (if from <= last.time <= to then [last] else [])
  }

  function NotBefore(records: seq<Record>, from: int): seq<Record> {
    if records == [] then []
    else
      var front, last := records[..|records| - 1], records[|records| - 1];
      NotBefore(front, from) + (if from <= last.time then [last] else [])
  }

  function Lookup(records: map<GroupKey, seq<Record>>, key: GroupKey): seq<Record> {
    if key in records then records[key] else []
  }

  function WindowOf(records: seq<Record>, o: Observation): seq<Record> {
    Within(records, o.time - Timespan(o.spec), o.time)
  }

  /** The stored records after pruning at twice the timespan and appending the new ones. */
  function Retained(stored: seq<Record>, o: Observation, added: seq<Record>): seq<Record> {
    NotBefore(stored, o.time - 2 * Timespan(o.spec)) + added
  }

  function FingerprintOf(o: Observation, e: Evaluation): Fingerprint {
    Fingerprint(o.key, o.event, SortStrings(e.eventIds))
  }

  /** One call of `ObserveCorrelation`, as a function of the state. */
  function Observe(s: State, o: Observation): (State, Outcome) {
    if !ValidObservation(o) then (s, Invalid)
    else
      var added := FreshRecords(s, o);
      if added == [] then (s, Observed(NO_EVALUATION))
      else
        var stored := Lookup(s.records, o.key);
        var window := WindowOf(stored, o);
        var records := s.records[o.key := Retained(stored, o, added)];
        var observed := s.observed + MarksFor(o, NewSources(s, o));
        var (emissions, result) := Conclude(s.emissions, o, Evaluate(o.spec, window), Evaluate(o.spec, window + added));
        (State(records, emissions, observed), Observed(result))
  }

  /** Triggers on the unsatisfied-to-satisfied edge, unless this fingerprint was emitted before. */
  function Conclude(emissions: set<Fingerprint>, o: Observation, before: Evaluation, after: Evaluation)
    : (set<Fingerprint>, Evaluation)
  {
    var mark := FingerprintOf(o, after);
    if before.satisfied || !after.satisfied || mark in emissions then (emissions, after)
    else (emissions + {mark}, after.(triggered := true))
  }

  lemma {:induction false} FreshSourcesAppend(o: Observation, a: seq<string>, b: seq<string>, observed: set<Mark>)
    ensures FreshSources(o, a + b, observed) == FreshSources(o, a, observed) + FreshSources(o, b, observed)
  {
    if a == [] {
      assert a + b == b;
    } else {
      assert (a + b)[1..] == a[1..] + b;
      FreshSourcesAppend(o, a[1..], b, observed);
    }
  }

  // ----- the class -----

  /** A slice: the first `length` cells of its backing array. */
  datatype Slice = Slice(backing: array<Record>, length: nat) {
    ghost predicate Holds(s: seq<Record>)
      reads backing
    {
      length == |s| <= backing.Length && forall i :: 0 <= i < length ==> backing[i] == s[i]
    }
  }

  /**
   The in-place filter through `[:0]`: kept records are written over the front
   of the array being read. A write never passes the read index.
   */
  method FilterInPlace(slice: Slice, ghost stored: seq<Record>, cutoff: int, retention: int, now: int)
    returns (r: Slice, window: seq<Record>)
    requires slice.Holds(stored)
    modifies slice.backing
    ensures r.backing == slice.backing && r.Holds(NotBefore(stored, retention))
    ensures window == Within(stored, cutoff, now)
  {
    var a, kept := slice.backing, 0;
    window := [];
    ghost var front: seq<Record> := [];
    for i := 0 to slice.length
      invariant |front| == kept <= i
      invariant forall m :: 0 <= m < kept ==> a[m] == front[m]
      invariant forall m :: i <= m < slice.length ==> a[m] == stored[m]
      invariant front == NotBefore(stored[..i], retention)
      invariant window == Within(stored[..i], cutoff, now)
    {
      var record := a[i];
      assert stored[..i + 1][..i] == stored[..i];
      if retention <= record.time {
        a[kept] := record;
        kept := kept + 1;
        front := front + [record];
      }
      if cutoff <= record.time <= now {
        window := window + [record];
      }
    }
    assert stored[..slice.length] == stored;
    r := Slice(a, kept);
  }

  /** `append`: in place when the capacity suffices, otherwise into a larger array. */
  method Append(slice: Slice, ghost stored: seq<Record>, more: seq<Record>) returns (r: Slice)
    requires slice.Holds(stored)
    modifies slice.backing
    ensures r.backing == slice.backing || fresh(r.backing)
    ensures r.Holds(stored + more)
  {
    var a, length := slice.backing, slice.length;
    if a.Length < length + |more| {
      var smaller := a;
      a := new Record[length + |more|](_ => Record("", "", 0, ""));
      for i := 0 to length
        invariant forall m :: 0 <= m < length ==> smaller[m] == stored[m]
        invariant forall m :: 0 <= m < i ==> a[m] == stored[m]
      {
        a[i] := smaller[i];
      }
    }
    for i := 0 to |more|
      invariant forall m :: 0 <= m < length ==> a[m] == stored[m]
      invariant forall m :: 0 <= m < i ==> a[length + m] == more[m]
    {
      a[length + i] := more[i];
    }
    r := Slice(a, length + |more|);
    forall m | 0 <= m < r.length
      ensures a[m] == (stored + more)[m]
    {
      if m >= length {
        assert a[length + (m - length)] == more[m - length];
      }
    }
  }

  /** Prunes a slice in place, appends the new records and returns the window it held. */
  method Refill(slice: Slice, ghost stored: seq<Record>, input: Observation, newRecords: seq<Record>)
    returns (r: Slice, window: seq<Record>)
    requires slice.Holds(stored)
    modifies slice.backing
    ensures r.backing == slice.backing || fresh(r.backing)
    ensures r.Holds(Retained(stored, input, newRecords)) && window == WindowOf(stored, input)
  {
    var timespan := Timespan(input.spec);
    r, window := FilterInPlace(slice, stored, input.time - timespan, input.time - 2 * timespan, input.time);
    r := Append(r, NotBefore(stored, input.time - 2 * timespan), newRecords);
  }

  /** The map from key to slice. */
  class RecordTable {
    var slices: map<GroupKey, Slice>
    ghost var contents: map<GroupKey, seq<Record>>  // the records each slice holds
    ghost var owner: map<array<Record>, GroupKey>  // no two keys share a backing array

    ghost function Repr(): set<object>
      reads this
    {
      {this} + owner.Keys
    }

    ghost predicate Sound(k: GroupKey)
      requires k in slices && k in contents
      reads this, slices[k].backing
    {
      slices[k].backing in owner && owner[slices[k].backing] == k && slices[k].Holds(contents[k])
    }

    ghost predicate Valid()
      reads Repr()
    {
      slices.Keys == contents.Keys && forall k :: k in slices ==> slices[k].backing in owner && Sound(k)
    }

    constructor ()
      ensures Valid() && contents == map[] && fresh(Repr())
    {
      slices, contents, owner := map[], map[], map[];
    }

    method Get(key: GroupKey) returns (slice: Slice)
      requires Valid()
      ensures slice.Holds(Lookup(contents, key))
      ensures if key in slices then slice == slices[key] else fresh(slice.backing)
    {
      if key in slices {
        assert Sound(key);
        return slices[key];
      }
      var nothing := new Record[0];
      return Slice(nothing, 0);
    }

    /** Stores a slice for `key`; the old slice of `key` may have been overwritten. */
    method Put(key: GroupKey, slice: Slice, ghost held: seq<Record>)
      requires slices.Keys == contents.Keys
      requires forall k :: k in slices && k != key ==> slices[k].backing in owner && Sound(k)
      requires slice.backing in owner ==> owner[slice.backing] == key
      requires slice.Holds(held)
      modifies this
      ensures Valid() && contents == old(contents)[key := held]
      ensures owner.Keys == old(owner.Keys) + {slice.backing}
    {
      ghost var was := slices;
      slices, contents, owner := slices[key := slice], contents[key := held], owner[slice.backing := key];
      assert forall k :: k in was && k != key ==> slices[k] == was[k];
    }

    /** Replaces the key's slice by its pruned and extended form and returns the old window. */
    method Retain(input: Observation, newRecords: seq<Record>) returns (window: seq<Record>)
      requires Valid()
      modifies Repr()
      ensures Valid() && fresh(Repr() - old(Repr()))
      ensures window == WindowOf(Lookup(old(contents), input.key), input)
      ensures contents == old(contents)[input.key := Retained(Lookup(old(contents), input.key), input, newRecords)]
    {
      var slice := Get(input.key);
      assert forall k :: k in slices ==> Sound(k);
      var retained;
      ghost var stored := Lookup(contents, input.key);
      retained, window := Refill(slice, stored, input, newRecords);
      assert forall k :: k in slices && k != input.key ==> Sound(k);
      Put(input.key, retained, Retained(stored, input, newRecords));
    }
  }

  class MemoryCorrelationStore {
    const table: RecordTable
    var emissions: set<Fingerprint>
    var observation: set<Mark>

    ghost function Repr(): set<object>
      reads this, table
    {
      {this} + table.Repr()
    }

    ghost predicate Valid()
      reads Repr()
    {
      this !in table.Repr() && table.Valid()
    }

    ghost function Abstract(): State
      reads this, table
    {
      State(table.contents, emissions, observation)
    }

    constructor ()
      ensures Valid() && Abstract() == EMPTY && fresh(Repr())
    {
      table := new RecordTable();
      emissions, observation := {}, {};
    }

    method ObserveCorrelation(input: Observation) returns (r: Outcome)
      requires Valid()
      modifies Repr()
      ensures Valid() && fresh(Repr() - old(Repr()))
      ensures (Abstract(), r) == Observe(old(Abstract()), input)
    {
      hide Conclude, Evaluate, Retained, WindowOf, ValidObservation, Lookup;
      if !ValidObservation(input) {
        return Invalid;
      }
      ghost var start := Abstract();
      var newRecords := Accept(input);
      if newRecords == [] {
        assert |NewSources(start, input)| == |newRecords|;
        assert MarksFor(input, []) == {} && observation == start.observed;
        return Observed(NO_EVALUATION);
      }
      var window := table.Retain(input, newRecords);
      var before := EvaluateCorrelation(input.spec, window);
      var after := EvaluateCorrelation(input.spec, window + newRecords);
      var result := Decide(input, before, after);
      return Observed(result);
    }

    /** Triggers on the edge, once per fingerprint. */
    method Decide(input: Observation, before: Evaluation, after: Evaluation) returns (r: Evaluation)
      modifies this`emissions
      ensures (emissions, r) == Conclude(old(emissions), input, before, after)
    {
      if before.satisfied || !after.satisfied {
        return after;
      }
      var fingerprint := FingerprintOf(input, after);
      if fingerprint in emissions {
        return after;
      }
      emissions := emissions + {fingerprint};
      return after.(triggered := true);
    }

    /** Marks and returns the records of the sources not seen before. */
    method Accept(input: Observation) returns (newRecords: seq<Record>)
      modifies this`observation
      ensures var picked := FreshSources(input, UniqueStrings(input.sources), old(observation));
              && newRecords == RecordsFor(input, picked)
              && observation == old(observation) + MarksFor(input, picked)
    {
      var sources := UniqueStrings(input.sources);
      UniqueStringsSorted(input.sources);
      StrictlySortedIsDistinct(sources);
      newRecords := [];
      ghost var seen := observation;
      for i := 0 to |sources|
        invariant newRecords == RecordsFor(input, FreshSources(input, sources[..i], seen))
        invariant observation == seen + MarksFor(input, FreshSources(input, sources[..i], seen))
      {
        var source := sources[i];
        assert sources[..i + 1] == sources[..i] + [source];
        FreshSourcesAppend(input, sources[..i], [source], seen);
        assert source !in FreshSources(input, sources[..i], seen);
        if MarkOf(input, source) in observation {
          continue;
        }
        observation := observation + {MarkOf(input, source)};
        newRecords := newRecords + [RecordOf(input, source)];
      }
      assert sources[..|sources|] == sources;
    }
  }
}
