/**
 Properties of the correlation store over whole runs: pruning loses nothing a
 window needs, an observation triggers exactly on the edge, and redelivery is idle.
 */
module CorrelationRuns {
  import opened Options
  import opened Ordering
  import opened Text
  import opened Correlation
  import opened CorrelationMeaning
  import opened CorrelationStore

  /** The state after a list of observations. */
  function Run(obs: seq<Observation>): State {
    if obs == [] then EMPTY
    else Observe(Run(obs[..|obs| - 1]), obs[|obs| - 1]).0
  }

  /** The records an observation adds to the history of `key`. */
  function Added(s: State, o: Observation, key: GroupKey): seq<Record> {
    if ValidObservation(o) && o.key == key then FreshRecords(s, o) else []
  }

  /** Every record ever accepted for `key`, never pruned. */
  function History(key: GroupKey, obs: seq<Observation>): seq<Record> {
    if obs == [] then []
    else
      var before := obs[..|obs| - 1];
      History(key, before) + Added(Run(before), obs[|obs| - 1], key)
  }

  /** One spec per key. */
  ghost predicate UsesSpec(key: GroupKey, spec: Spec, obs: seq<Observation>) {
    forall i :: 0 <= i < |obs| && obs[i].key == key ==> obs[i].spec == spec
  }

  /** `o` is at most one timespan older than the newest record accepted for its key. */
  ghost predicate Timely(o: Observation, history: seq<Record>) {
    forall r :: r in history ==> r.time - Timespan(o.spec) <= o.time
  }

  ghost predicate AllTimely(key: GroupKey, obs: seq<Observation>) {
    forall i :: 0 <= i < |obs| && obs[i].key == key ==> Timely(obs[i], History(key, obs[..i]))
  }

  // ----- pruning -----

  lemma {:induction false} WithinAppend(a: seq<Record>, b: seq<Record>, from: int, to: int)
    ensures Within(a + b, from, to) == Within(a, from, to) + Within(b, from, to)
  {
    if b == [] {
      assert a + b == a;
    } else {
      var front := b[..|b| - 1];
      assert (a + b)[..|a + b| - 1] == a + front;
      WithinAppend(a, front, from, to);
    }
  }

  lemma {:induction false} WithinMembers(s: seq<Record>, from: int, to: int)
    ensures forall r :: r in Within(s, from, to) <==> r in s && from <= r.time <= to
  {
    if s != [] {
      WithinMembers(s[..|s| - 1], from, to);
      assert s == s[..|s| - 1] + [s[|s| - 1]];
    }
  }

  lemma {:induction false} WithinOfRetained(s: seq<Record>, cutoff: int, from: int, to: int)
    requires cutoff <= from
    ensures Within(NotBefore(s, cutoff), from, to) == Within(s, from, to)
  {
    if s != [] {
      var front, last := s[..|s| - 1], s[|s| - 1];
      WithinOfRetained(front, cutoff, from, to);
      WithinAppend(NotBefore(front, cutoff), [last], from, to);
      assert [last][..|[last]| - 1] == [];
      assert NotBefore(front, cutoff) + [] == NotBefore(front, cutoff);
    }
  }

  lemma {:induction false} AllWithin(s: seq<Record>, from: int, to: int)
    requires forall r :: r in s ==> from <= r.time <= to
    ensures Within(s, from, to) == s
  {
    if s != [] {
      AllWithin(s[..|s| - 1], from, to);
    }
  }

  lemma AddedRecordsAreOf(s: State, o: Observation, key: GroupKey)
    ensures forall r :: r in Added(s, o, key) ==> r.time == o.time && r.event == o.event && o.key == key
    ensures Added(s, o, key) != [] ==> ValidObservation(o) && Added(s, o, key) == RecordsFor(o, NewSources(s, o))
  {
  }

  /** What one observation leaves stored for `key`. */
  lemma StoredAfter(s: State, o: Observation, key: GroupKey)
    ensures Lookup(Observe(s, o).0.records, key) ==
            if Added(s, o, key) == [] then Lookup(s.records, key)
            else Retained(Lookup(s.records, key), o, Added(s, o, key))
  {
  }

  /** Any window reaching back no further than twice the timespan is the same in the pruned and the full store. */
  lemma {:induction false} PrunedStoreAgrees(key: GroupKey, spec: Spec, obs: seq<Observation>, from: int, to: int)
    requires UsesSpec(key, spec, obs)
    requires forall r :: r in History(key, obs) ==> r.time - 2 * Timespan(spec) <= from
    ensures Within(Lookup(Run(obs).records, key), from, to) == Within(History(key, obs), from, to)
  {
    hide Observe, Added, Within, NotBefore;
    if obs != [] {
      var before, o := obs[..|obs| - 1], obs[|obs| - 1];
      PrunedStoreAgrees(key, spec, before, from, to);
      var stored, added := Lookup(Run(before).records, key), Added(Run(before), o, key);
      StoredAfter(Run(before), o, key);
      AddedRecordsAreOf(Run(before), o, key);
      if added != [] {
        var cutoff := o.time - 2 * Timespan(spec);
        assert added[0] in History(key, obs) && added[0].time == o.time;
        WithinOfRetained(stored, cutoff, from, to);
        WithinAppend(NotBefore(stored, cutoff), added, from, to);
        WithinAppend(History(key, before), added, from, to);
      } else {
        assert History(key, obs) == History(key, before);
      }
    }
  }

  /** The window of a timely observation, read from the pruned store, is the window of the full history. */
  lemma WindowFromPrunedStore(obs: seq<Observation>, o: Observation)
    requires UsesSpec(o.key, o.spec, obs) && Timely(o, History(o.key, obs))
    ensures WindowOf(Lookup(Run(obs).records, o.key), o) == WindowOf(History(o.key, obs), o)
  {
    hide Run, History, Within, Lookup;
    PrunedStoreAgrees(o.key, o.spec, obs, o.time - Timespan(o.spec), o.time);
  }

  lemma {:induction false} NotBeforeMembers(s: seq<Record>, from: int)
    ensures forall r :: r in NotBefore(s, from) <==> r in s && from <= r.time
  {
    if s != [] {
      NotBeforeMembers(s[..|s| - 1], from);
      assert s == s[..|s| - 1] + [s[|s| - 1]];
    }
  }

  /** An observation with news drops exactly the records of its key older than twice the timespan. */
  lemma PruningExactly(s: State, o: Observation, r: Record)
    requires Added(s, o, o.key) != []
    ensures r in Lookup(Observe(s, o).0.records, o.key) <==>
            (r in Lookup(s.records, o.key) && o.time - 2 * o.spec.timespanSeconds * 1_000_000_000 <= r.time) || r in Added(s, o, o.key)
  {
    hide Observe, Lookup, Added, NotBefore;
    StoredAfter(s, o, o.key);
    NotBeforeMembers(Lookup(s.records, o.key), o.time - 2 * Timespan(o.spec));
  }

  /** Two triggers share a fingerprint exactly when they agree in key, event and evidence, in whatever order. */
  lemma FingerprintExactly(o: Observation, e: Evaluation, o': Observation, e': Evaluation)
    ensures FingerprintOf(o, e) == FingerprintOf(o', e') <==>
            o.key == o'.key && o.event == o'.event && multiset(e.eventIds) == multiset(e'.eventIds)
  {
    SortStringsExactly(e.eventIds, e'.eventIds);
  }

  // ----- the trigger edge -----

  /** An emitted fingerprint belongs to an event whose window over the full history is satisfied. */
  ghost predicate Explained(f: Fingerprint, spec: Spec, history: seq<Record>) {
    exists r :: r in history && r.event == f.trigger &&
                Evaluate(spec, Within(history, r.time - Timespan(spec), r.time)).satisfied
  }

  lemma GrowingHistoryStaysExplained(f: Fingerprint, spec: Spec, history: seq<Record>, added: seq<Record>)
    requires Explained(f, spec, history)
    requires spec.kind.TemporalOrdered? ==> Uninterleaved(StampsIn(spec.rules, Elements(history + added)))
    ensures Explained(f, spec, history + added)
  {
    hide Evaluate, Within;
    var r :| r in history && r.event == f.trigger &&
             Evaluate(spec, Within(history, r.time - Timespan(spec), r.time)).satisfied;
    var from := r.time - Timespan(spec);
    WithinMembers(history, from, r.time);
    WithinMembers(history + added, from, r.time);
    EvaluateIsMonotone(spec, Within(history, from, r.time), Within(history + added, from, r.time));
    assert r in history + added;
  }

  /** The window of `o` with its own records is the window of the grown history. */
  lemma WindowWithAdded(history: seq<Record>, o: Observation, sources: seq<string>)
    requires ValidObservation(o)
    ensures WindowOf(history + RecordsFor(o, sources), o) == WindowOf(history, o) + RecordsFor(o, sources)
  {
    var added := RecordsFor(o, sources);
    WithinAppend(history, added, o.time - Timespan(o.spec), o.time);
    AllWithin(added, o.time - Timespan(o.spec), o.time);
  }

  /** The sense in which an observation is on the edge: judged on the full history. */
  ghost predicate OnTheEdge(obs: seq<Observation>, o: Observation) {
    var window, added := WindowOf(History(o.key, obs), o), Added(Run(obs), o, o.key);
    && added != []
    && !Evaluate(o.spec, window).satisfied
    && Evaluate(o.spec, window + added).satisfied
  }

  ghost predicate Triggers(s: State, o: Observation) {
    Observe(s, o).1.Observed? && Observe(s, o).1.evaluation.triggered
  }

  lemma EvaluateNeverTriggers(spec: Spec, records: seq<Record>)
    ensures !Evaluate(spec, records).triggered
  {
  }

  lemma TriggersUnlessEmitted(obs: seq<Observation>, o: Observation)
    requires UsesSpec(o.key, o.spec, obs) && Timely(o, History(o.key, obs))
    ensures var after := Evaluate(o.spec, WindowOf(History(o.key, obs), o) + Added(Run(obs), o, o.key));
            && Triggers(Run(obs), o) == (OnTheEdge(obs, o) && FingerprintOf(o, after) !in Run(obs).emissions)
            && Observe(Run(obs), o).0.emissions ==
                 Run(obs).emissions + (if Triggers(Run(obs), o) then {FingerprintOf(o, after)} else {})
  {
    WindowFromPrunedStore(obs, o);
    EvaluateNeverTriggers(o.spec, WindowOf(History(o.key, obs), o) + Added(Run(obs), o, o.key));
  }

  lemma EmissionsGrowByOwnKey(s: State, o: Observation)
    ensures forall f :: f in Observe(s, o).0.emissions ==> f in s.emissions || f.key == o.key
  {
    hide Evaluate, FreshRecords;
  }

  lemma SatisfiedIsExplained(history: seq<Record>, o: Observation, sources: seq<string>, f: Fingerprint)
    requires ValidObservation(o) && sources != [] && f.trigger == o.event
    requires Evaluate(o.spec, WindowOf(history, o) + RecordsFor(o, sources)).satisfied
    ensures Explained(f, o.spec, history + RecordsFor(o, sources))
  {
    hide Evaluate, Within, ValidObservation;
    var added := RecordsFor(o, sources);
    WindowWithAdded(history, o, sources);
    assert added[0] in history + added;
  }

  lemma {:induction false} EmissionsAreExplained(key: GroupKey, spec: Spec, obs: seq<Observation>, f: Fingerprint)
    requires UsesSpec(key, spec, obs) && AllTimely(key, obs)
    requires spec.kind.TemporalOrdered? ==> Uninterleaved(StampsIn(spec.rules, Elements(History(key, obs))))
    requires f in Run(obs).emissions && f.key == key
    ensures Explained(f, spec, History(key, obs))
  {
    hide Evaluate, Within, Added, Observe, Explained;
    var before, o := obs[..|obs| - 1], obs[|obs| - 1];
    var history, added := History(key, before), Added(Run(before), o, key);
    assert obs[..|before|] == before;
    assert forall i :: 0 <= i < |before| ==> obs[..i] == before[..i];
    if f in Run(before).emissions {
      EmissionsAreExplained(key, spec, before, f);
      GrowingHistoryStaysExplained(f, spec, history, added);
    } else {
      EmissionsGrowByOwnKey(Run(before), o);
      TriggersUnlessEmitted(before, o);
      AddedRecordsAreOf(Run(before), o, key);
      SatisfiedIsExplained(history, o, NewSources(Run(before), o), f);
    }
  }

  /** An event whose fingerprint was emitted finds its window already satisfied. */
  lemma EmittedMeansSatisfiedBefore(obs: seq<Observation>, o: Observation, f: Fingerprint)
    requires UsesSpec(o.key, o.spec, obs) && AllTimely(o.key, obs)
    requires Steady(o, History(o.key, obs))
    requires f in Run(obs).emissions && f.key == o.key && f.trigger == o.event
    ensures Evaluate(o.spec, WindowOf(History(o.key, obs), o)).satisfied
  {
    hide Evaluate, Within, Observe, Run, History;
    var history := History(o.key, obs);
    EmissionsAreExplained(o.key, o.spec, obs, f);
    var r :| r in history && r.event == o.event &&
             Evaluate(o.spec, Within(history, r.time - Timespan(o.spec), r.time)).satisfied;
    assert r.time == o.time;
  }

  /** The event of `o` keeps its time, and for ordered rules no event is seen between two sightings of another. */
  ghost predicate Steady(o: Observation, history: seq<Record>) {
    && (forall r :: r in history && r.event == o.event ==> r.time == o.time)
    && (o.spec.kind.TemporalOrdered? ==> Uninterleaved(StampsIn(o.spec.rules, Elements(history))))
  }

  /** Both hold when an event ID determines its time. */
  lemma OneTimeIsSteady(o: Observation, history: seq<Record>)
    requires ValidObservation(o) && OneTime(Elements(history) + {RecordOf(o, "")})
    ensures Steady(o, history)
  {
    var s := Elements(history) + {RecordOf(o, "")};
    OneTimeIsUninterleaved(s);
    assert RecordOf(o, "") in s;
    FewerAreUninterleaved(StampsIn(o.spec.rules, Elements(history)), StampsOf(s));
  }

  /**
   Over any run with timely observations in which the event keeps its time, an
   observation triggers if and only if it is on the edge: the emission
   fingerprints never suppress a trigger.
   */
  lemma TriggersExactlyOnTheEdge(obs: seq<Observation>, o: Observation)
    requires UsesSpec(o.key, o.spec, obs) && AllTimely(o.key, obs) && Timely(o, History(o.key, obs))
    requires Steady(o, History(o.key, obs))
    ensures Triggers(Run(obs), o) <==> OnTheEdge(obs, o)
  {
    hide Evaluate, Within, Added, Observe, Run;
    var history, added := History(o.key, obs), Added(Run(obs), o, o.key);
    TriggersUnlessEmitted(obs, o);
    var f := FingerprintOf(o, Evaluate(o.spec, WindowOf(history, o) + added));
    if added != [] && f in Run(obs).emissions {
      EmittedMeansSatisfiedBefore(obs, o, f);
    }
  }

  /** Records of one event with one value raise each count by at most one. */
  lemma CountsRiseByOne(spec: Spec, window: seq<Record>, added: seq<Record>, event: string, value: string)
    requires spec.kind.EventCount? || spec.kind.ValueCount?
    requires forall r :: r in added ==> r.event == event && r.value == value
    ensures Evaluate(spec, window + added).count <= Evaluate(spec, window).count + 1
    ensures Evaluate(spec, window + added).distinctValues <= Evaluate(spec, window).distinctValues + 1
  {
    hide Sort, Allowed, UniqueIds;
    CountsAreCardinalities(spec, window);
    CountsAreCardinalities(spec, window + added);
    var a, b := Elements(window), Elements(window + added);
    SubsetCardinality(EventIdsOf(spec.rules, b), EventIdsOf(spec.rules, a) + {event});
    SubsetCardinality(ValuesIn(spec.rules, b), ValuesIn(spec.rules, a) + {value});
  }

  lemma SatisfiedMeansThreshold(spec: Spec, records: seq<Record>)
    ensures spec.kind.EventCount? ==> Evaluate(spec, records).satisfied == (Evaluate(spec, records).count >= spec.threshold)
    ensures spec.kind.ValueCount? ==>
              Evaluate(spec, records).satisfied == (Evaluate(spec, records).distinctValues >= spec.threshold)
  {
  }

  /** At the trigger a count rule has reached its threshold exactly. */
  lemma TriggerMeetsThresholdExactly(s: State, o: Observation)
    requires o.spec.kind.EventCount? || o.spec.kind.ValueCount?
    ensures Triggers(s, o) ==>
              if o.spec.kind.EventCount? then Observe(s, o).1.evaluation.count == o.spec.threshold
              else Observe(s, o).1.evaluation.distinctValues == o.spec.threshold
  {
    hide Evaluate, FreshRecords, Lookup, WindowOf;
    var added, window := FreshRecords(s, o), WindowOf(Lookup(s.records, o.key), o);
    FreshRecordsAreOf(s, o);
    EvaluateNeverTriggers(o.spec, window + added);
    SatisfiedMeansThreshold(o.spec, window);
    SatisfiedMeansThreshold(o.spec, window + added);
    CountsRiseByOne(o.spec, window, added, o.event, o.value);
  }

  lemma FreshRecordsAreOf(s: State, o: Observation)
    ensures forall r :: r in FreshRecords(s, o) ==> r.event == o.event && r.value == o.value
  {
  }

  // ----- redelivery -----

  /** An accepted observation has all its sources marked. */
  lemma ObserveMarks(s: State, o: Observation)
    ensures s.observed <= Observe(s, o).0.observed
    ensures ValidObservation(o) ==> forall x :: x in UniqueStrings(o.sources) ==> MarkOf(o, x) in Observe(s, o).0.observed
  {
    hide UniqueStrings, Evaluate, Lookup, Retained, Conclude, ValidObservation;
    if ValidObservation(o) {
      forall x | x in UniqueStrings(o.sources) && MarkOf(o, x) !in s.observed
        ensures MarkOf(o, x) in Observe(s, o).0.observed
      {
        assert x in NewSources(s, o);
        assert |FreshRecords(s, o)| == |NewSources(s, o)| > 0;
        assert MarkOf(o, x) in MarksFor(o, NewSources(s, o));
      }
    }
  }

  /** Marks are never removed. */
  lemma {:induction false} DeliveredIsMarked(obs: seq<Observation>, i: nat)
    requires i < |obs| && ValidObservation(obs[i])
    ensures forall x :: x in UniqueStrings(obs[i].sources) ==> MarkOf(obs[i], x) in Run(obs).observed
  {
    hide UniqueStrings, Observe, ValidObservation, MarkOf;
    var before := obs[..|obs| - 1];
    ObserveMarks(Run(before), obs[|obs| - 1]);
    if i < |before| {
      DeliveredIsMarked(before, i);
    }
  }

  lemma HasMember(s: seq<string>)
    ensures s != [] ==> exists x :: x in s
  {
    if s != [] {
      assert s[0] in s;
    }
  }

  lemma IdleWhenMarked(s: State, o: Observation)
    requires forall x :: x in UniqueStrings(o.sources) ==> MarkOf(o, x) in s.observed
    ensures Observe(s, o).0 == s && !Triggers(s, o)
  {
    hide UniqueStrings, Evaluate, Lookup, Retained, Conclude;
    HasMember(NewSources(s, o));
  }

  /** Delivering an earlier observation again changes nothing and never triggers. */
  lemma RedeliveryIsIdle(obs: seq<Observation>, o: Observation)
    requires o in obs
    ensures Observe(Run(obs), o).0 == Run(obs) && !Triggers(Run(obs), o)
  {
    hide UniqueStrings, Evaluate, FreshRecords, Run;
    if ValidObservation(o) {
      var i :| 0 <= i < |obs| && obs[i] == o;
      DeliveredIsMarked(obs, i);
      IdleWhenMarked(Run(obs), o);
    }
  }

  /** Any replay of earlier observations, in any order and number, leaves the state as it was. */
  lemma {:induction false} ReplayIsIdle(obs: seq<Observation>, replay: seq<Observation>)
    requires forall o :: o in replay ==> o in obs
    ensures Run(obs + replay) == Run(obs)
  {
    if replay == [] {
      assert obs + replay == obs;
    } else {
      var front, last := replay[..|replay| - 1], replay[|replay| - 1];
      ReplayIsIdle(obs, front);
      assert (obs + replay)[..|obs + replay| - 1] == obs + front;
      RedeliveryIsIdle(obs, last);
    }
  }
}
