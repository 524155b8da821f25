/**
 The correlation store in terms of what was delivered to it: which observation
 becomes which record, and when an observation triggers, both stated on the
 fields of the observations alone.
 */
module CorrelationDeliveries {
  import opened Options
  import opened Ordering
  import opened Text
  import opened Correlation
  import opened CorrelationMeaning
  import opened CorrelationExactness
  import opened CorrelationStore
  import opened CorrelationRuns

  /** Observation `i` is for `key` and names `source` as its `j`-th source rule. */
  ghost predicate Names(obs: seq<Observation>, key: GroupKey, i: nat, j: nat, source: string) {
    && i < |obs| && ValidObservation(obs[i]) && obs[i].key == key
    && j < |obs[i].sources| && source != "" && Trim(obs[i].sources[j]) == source
  }

  /** Some observation for `key` reports `event` with this source rule. */
  ghost predicate Reported(obs: seq<Observation>, key: GroupKey, source: string, event: string) {
    exists i: nat, j: nat :: Names(obs, key, i, j, source) && obs[i].event == event
  }

  /** `r` is the first report of its source rule and event, with what that observation says. */
  ghost predicate Delivered(obs: seq<Observation>, key: GroupKey, r: Record) {
    exists i: nat, j: nat :: Names(obs, key, i, j, r.rule) && FirstReport(obs, key, i, r)
  }

  ghost predicate FirstReport(obs: seq<Observation>, key: GroupKey, i: nat, r: Record)
    requires i < |obs|
  {
    && !Reported(obs[..i], key, r.rule, r.event)
    && r.event == obs[i].event && r.time == obs[i].time && r.value == obs[i].value
  }

  /** What is accepted: nothing required is blank, and the timespan is at most a day. */
  lemma ValidExactly(o: Observation)
    ensures ValidObservation(o) <==>
            && !AllSpace(o.key.tenant) && !AllSpace(o.key.rule) && !AllSpace(o.key.version) && !AllSpace(o.key.group)
            && !AllSpace(o.event) && o.time != 0 && o.sources != [] && 1 <= o.spec.timespanSeconds <= 86_400
  {
    TrimIsBlank(o.key.tenant);
    TrimIsBlank(o.key.rule);
    TrimIsBlank(o.key.version);
    TrimIsBlank(o.key.group);
    TrimIsBlank(o.event);
  }

  // ----- one more observation -----

  lemma ReportedAfter(obs: seq<Observation>, key: GroupKey, source: string, event: string)
    requires obs != []
    ensures var before, o := obs[..|obs| - 1], obs[|obs| - 1];
            Reported(obs, key, source, event) <==>
            Reported(before, key, source, event) || (ValidObservation(o) && o.key == key && o.event == event && source in UniqueStrings(o.sources))
  {
    hide ValidObservation, Trim;
    var before, o := obs[..|obs| - 1], obs[|obs| - 1];
    if Reported(before, key, source, event) {
      var i: nat, j: nat :| Names(before, key, i, j, source) && before[i].event == event;
      assert Names(obs, key, i, j, source) && obs[i] == before[i];
    } else if ValidObservation(o) && o.key == key && o.event == event && source in UniqueStrings(o.sources) {
      var j :| 0 <= j < |o.sources| && Trim(o.sources[j]) == source;
      assert Names(obs, key, |obs| - 1, j, source);
    }
    if Reported(obs, key, source, event) {
      var i: nat, j: nat :| Names(obs, key, i, j, source) && obs[i].event == event;
      if i < |before| {
        assert Names(before, key, i, j, source) && before[i] == obs[i];
      }
    }
  }

  lemma DeliveredAfter(obs: seq<Observation>, key: GroupKey, r: Record)
    requires obs != []
    ensures var before, o := obs[..|obs| - 1], obs[|obs| - 1];
            Delivered(obs, key, r) <==>
            Delivered(before, key, r)
            || (ValidObservation(o) && o.key == key && r == Record(r.rule, o.event, o.time, o.value)
                && r.rule in UniqueStrings(o.sources) && !Reported(before, key, r.rule, o.event))
  {
    hide ValidObservation, Trim, Reported;
    var before, o := obs[..|obs| - 1], obs[|obs| - 1];
    if Delivered(before, key, r) {
      var i: nat, j: nat :| Names(before, key, i, j, r.rule) && FirstReport(before, key, i, r);
      assert obs[..i] == before[..i];
      assert Names(obs, key, i, j, r.rule) && FirstReport(obs, key, i, r);
    } else if ValidObservation(o) && o.key == key && r == Record(r.rule, o.event, o.time, o.value)
              && r.rule in UniqueStrings(o.sources) && !Reported(before, key, r.rule, o.event) {
      var j :| 0 <= j < |o.sources| && Trim(o.sources[j]) == r.rule;
      assert Names(obs, key, |obs| - 1, j, r.rule) && FirstReport(obs, key, |obs| - 1, r);
    }
    if Delivered(obs, key, r) {
      var i: nat, j: nat :| Names(obs, key, i, j, r.rule) && FirstReport(obs, key, i, r);
      if i < |before| {
        assert obs[..i] == before[..i];
        assert Names(before, key, i, j, r.rule) && FirstReport(before, key, i, r);
      }
    }
  }

  // ----- the store -----

  /** A source is marked exactly when it was reported. */
  lemma {:induction false} MarkedExactly(obs: seq<Observation>, key: GroupKey, source: string, event: string)
    ensures Mark(key, source, event) in Run(obs).observed <==> Reported(obs, key, source, event)
  {
    hide Reported, UniqueStrings, Evaluate, Conclude, Lookup, Retained, ValidObservation;
    if obs == [] {
      NothingReported(key, source, event);
    } else {
      var before, o := obs[..|obs| - 1], obs[|obs| - 1];
      MarkedExactly(before, key, source, event);
      ReportedAfter(obs, key, source, event);
      MarkedAfter(Run(before), o, Mark(key, source, event));
    }
  }

  lemma NothingReported(key: GroupKey, source: string, event: string)
    ensures !Reported([], key, source, event)
  {
  }

  lemma MarkedAfter(s: State, o: Observation, m: Mark)
    ensures m in Observe(s, o).0.observed <==>
            m in s.observed || (ValidObservation(o) && m.key == o.key && m.event == o.event && m.source in UniqueStrings(o.sources))
  {
    hide UniqueStrings, Evaluate, Conclude, Lookup, Retained, ValidObservation;
    ObserveMarks(s, o);
    if ValidObservation(o) && m in Observe(s, o).0.observed && m !in s.observed {
      assert m in MarksFor(o, NewSources(s, o));
    }
    assert m == MarkOf(o, m.source) || m.key != o.key || m.event != o.event;
  }

  /** What an observation adds, in terms of the marks. */
  lemma AddedExactly(s: State, o: Observation, key: GroupKey, r: Record)
    ensures r in Added(s, o, key) <==>
            && ValidObservation(o) && o.key == key && r == Record(r.rule, o.event, o.time, o.value)
            && r.rule in UniqueStrings(o.sources) && Mark(key, r.rule, o.event) !in s.observed
  {
    hide UniqueStrings, ValidObservation;
    if ValidObservation(o) && o.key == key {
      var sources := NewSources(s, o);
      if r.rule in sources && r == Record(r.rule, o.event, o.time, o.value) {
        var i :| 0 <= i < |sources| && sources[i] == r.rule;
        assert FreshRecords(s, o)[i] == r;
      }
    }
  }

  /**
   The history of a key holds exactly the first reports: a record is in it if and
   only if some valid observation for the key names its source rule, none before
   did for that event, and event, time and value are those of the observation.
   */
  lemma {:induction false} HistoryIsDelivered(key: GroupKey, obs: seq<Observation>, r: Record)
    ensures r in History(key, obs) <==> Delivered(obs, key, r)
  {
    hide Reported, Delivered, UniqueStrings, Added, Observe, ValidObservation;
    if obs == [] {
      NothingDelivered(key, r);
    } else {
      var before, o := obs[..|obs| - 1], obs[|obs| - 1];
      HistoryIsDelivered(key, before, r);
      DeliveredAfter(obs, key, r);
      AddedExactly(Run(before), o, key, r);
      MarkedExactly(before, key, r.rule, o.event);
    }
  }

  lemma NothingDelivered(key: GroupKey, r: Record)
    ensures !Delivered([], key, r)
  {
  }

  /** Nothing is recorded twice. */
  lemma {:induction false} HistoryIsDistinct(key: GroupKey, obs: seq<Observation>)
    ensures Distinct(History(key, obs))
  {
    hide UniqueStrings, ValidObservation, Reported, Delivered;
    if obs != [] {
      var before, o := obs[..|obs| - 1], obs[|obs| - 1];
      HistoryIsDistinct(key, before);
      AddedIsDistinct(Run(before), o, key);
      forall r | r in History(key, before)
        ensures r !in Added(Run(before), o, key)
      {
        HistoryIsDelivered(key, before, r);
        DeliveredIsReported(before, key, r);
        MarkedExactly(before, key, r.rule, r.event);
        AddedExactly(Run(before), o, key, r);
      }
      DistinctAppend(History(key, before), Added(Run(before), o, key));
    }
  }

  lemma DeliveredIsReported(obs: seq<Observation>, key: GroupKey, r: Record)
    requires Delivered(obs, key, r)
    ensures Reported(obs, key, r.rule, r.event)
  {
  }

  lemma AddedIsDistinct(s: State, o: Observation, key: GroupKey)
    ensures Distinct(Added(s, o, key))
  {
    hide UniqueStrings, ValidObservation;
    UniqueStringsSorted(o.sources);
    StrictlySortedIsDistinct(UniqueStrings(o.sources));
    FreshSourcesAreDistinct(o, UniqueStrings(o.sources), s.observed);
  }

  lemma {:induction false} FreshSourcesAreDistinct(o: Observation, sources: seq<string>, observed: set<Mark>)
    requires Distinct(sources)
    ensures Distinct(FreshSources(o, sources, observed))
  {
    if sources != [] {
      FreshSourcesAreDistinct(o, sources[1..], observed);
      var rest := FreshSources(o, sources[1..], observed);
      assert forall x :: x in rest ==> x in sources[1..];
      assert forall j :: 0 <= j < |rest| ==> rest[j] in rest;
    }
  }

  lemma DistinctAppend<T(!new)>(a: seq<T>, b: seq<T>)
    requires Distinct(a) && Distinct(b) && forall x :: x in a ==> x !in b
    ensures Distinct(a + b)
  {
    assert forall i :: 0 <= i < |a| ==> a[i] in a;
    assert forall i :: 0 <= i < |b| ==> b[i] in b;
  }

  // ----- triggers -----

  /** The delivered records in the window of `o`. */
  ghost function Window(obs: seq<Observation>, o: Observation): set<Record> {
    set r | r in History(o.key, obs) && o.time - o.spec.timespanSeconds * 1_000_000_000 <= r.time <= o.time
  }

  lemma WindowIsDelivered(obs: seq<Observation>, o: Observation, r: Record)
    ensures r in Window(obs, o) <==>
            Delivered(obs, o.key, r) && o.time - o.spec.timespanSeconds * 1_000_000_000 <= r.time <= o.time
  {
    hide Delivered, History;
    HistoryIsDelivered(o.key, obs, r);
  }

  lemma WindowElements(obs: seq<Observation>, o: Observation)
    ensures Elements(WindowOf(History(o.key, obs), o)) == Window(obs, o)
  {
    hide History, Within;
    WithinMembers(History(o.key, obs), o.time - Timespan(o.spec), o.time);
  }

  lemma HistoryAfter(obs: seq<Observation>, o: Observation)
    ensures History(o.key, obs + [o]) == History(o.key, obs) + Added(Run(obs), o, o.key)
  {
    assert (obs + [o])[..|obs|] == obs;
  }

  lemma WindowAfter(obs: seq<Observation>, o: Observation)
    ensures Elements(WindowOf(History(o.key, obs), o) + Added(Run(obs), o, o.key)) == Window(obs + [o], o)
  {
    hide History, Run, Added, ValidObservation, WindowOf;
    var added := Added(Run(obs), o, o.key);
    HistoryAfter(obs, o);
    AddedRecordsAreOf(Run(obs), o, o.key);
    WindowElements(obs, o);
    assert added != [] ==> o.spec.timespanSeconds > 0 by {
      TimespanIsPositive(o);
    }
    forall r
      ensures r in WindowOf(History(o.key, obs), o) + added <==> r in Window(obs + [o], o)
    {
      assert r in Window(obs, o) <==> r in Elements(WindowOf(History(o.key, obs), o));
    }
  }

  lemma TimespanIsPositive(o: Observation)
    ensures ValidObservation(o) ==> o.spec.timespanSeconds > 0
  {
  }

  /** The event of `o` keeps its time, and for ordered rules no event is seen between two sightings of another. */
  ghost predicate Calm(obs: seq<Observation>, o: Observation) {
    && Steady(o, History(o.key, obs))
    && (o.spec.kind.TemporalOrdered? ==> Uninterleaved(StampsIn(o.spec.rules, Window(obs + [o], o))))
  }

  /**
   Over every timely run: an observation triggers if and only if the records
   delivered in its window did not meet the rule before it and do with it.
   */
  lemma TriggersExactlyWhenMet(obs: seq<Observation>, o: Observation)
    requires UsesSpec(o.key, o.spec, obs) && AllTimely(o.key, obs) && Timely(o, History(o.key, obs)) && Calm(obs, o)
    ensures Triggers(Run(obs), o) <==> !Meets(o.spec, Window(obs, o)) && Meets(o.spec, Window(obs + [o], o))
  {
    hide Window, History, Run, Triggers, Added, Evaluate, Meets, Timely, AllTimely, WindowOf;
    var window, added := WindowOf(History(o.key, obs), o), Added(Run(obs), o, o.key);
    TriggersExactlyOnTheEdge(obs, o);
    WindowElements(obs, o);
    WindowAfter(obs, o);
    WindowGrows(obs, o);
    FewerAreUninterleavedIn(o.spec, Window(obs, o), Window(obs + [o], o));
    EvaluateExactly(o.spec, window);
    EvaluateExactly(o.spec, window + added);
    assert added == [] ==> window + added == window;
  }

  lemma WindowGrows(obs: seq<Observation>, o: Observation)
    ensures Window(obs, o) <= Window(obs + [o], o)
  {
    assert (obs + [o])[..|obs|] == obs;
  }

  lemma FewerAreUninterleavedIn(spec: Spec, s: set<Record>, t: set<Record>)
    requires s <= t
    ensures Uninterleaved(StampsIn(spec.rules, t)) ==> Uninterleaved(StampsIn(spec.rules, s))
  {
    if Uninterleaved(StampsIn(spec.rules, t)) {
      FewerAreUninterleaved(StampsIn(spec.rules, s), StampsIn(spec.rules, t));
    }
  }

  /** `o` is valid and reports something that was not reported before. */
  ghost predicate IsNews(obs: seq<Observation>, o: Observation) {
    ValidObservation(o) && exists j :: 0 <= j < |o.sources| && Trim(o.sources[j]) != "" && !Reported(obs, o.key, Trim(o.sources[j]), o.event)
  }

  lemma IsNewsExactly(obs: seq<Observation>, o: Observation)
    ensures IsNews(obs, o) <==> Added(Run(obs), o, o.key) != []
  {
    hide ValidObservation, Reported, UniqueStrings, Trim;
    var added := Added(Run(obs), o, o.key);
    if IsNews(obs, o) {
      var j :| 0 <= j < |o.sources| && Trim(o.sources[j]) != "" && !Reported(obs, o.key, Trim(o.sources[j]), o.event);
      var r := Record(Trim(o.sources[j]), o.event, o.time, o.value);
      MarkedExactly(obs, o.key, r.rule, o.event);
      AddedExactly(Run(obs), o, o.key, r);
    }
    if added != [] {
      var r := added[0];
      AddedExactly(Run(obs), o, o.key, r);
      MarkedExactly(obs, o.key, r.rule, o.event);
    }
  }

  /**
   What the caller gets: an error for an invalid observation, the empty result
   for one without news, and otherwise the evaluation of what was delivered in
   the window, listed in any way, with the trigger mark.
   */
  lemma ReportExactly(obs: seq<Observation>, o: Observation, records: seq<Record>)
    requires UsesSpec(o.key, o.spec, obs) && Timely(o, History(o.key, obs))
    requires Elements(records) == Window(obs + [o], o)
    ensures Observe(Run(obs), o).1 ==
            if !ValidObservation(o) then Invalid
            else if !IsNews(obs, o) then Observed(Evaluation(false, false, 0, 0, []))
            else Observed(Evaluate(o.spec, records).(triggered := Triggers(Run(obs), o)))
  {
    hide Window, History, Run, Evaluate, IsNews, UniqueStrings, WindowOf, Timely;
    IsNewsExactly(obs, o);
    WindowAfter(obs, o);
    WindowFromPrunedStore(obs, o);
    var after := WindowOf(History(o.key, obs), o) + Added(Run(obs), o, o.key);
    EvaluateDependsOnTheSet(o.spec, after, records);
    EvaluateNeverTriggers(o.spec, after);
  }

  /** The first observation of all triggers a count rule of threshold one exactly when the rule lists one of its sources. */
  lemma FirstObservationTriggers(o: Observation)
    requires ValidObservation(o) && o.spec.kind.EventCount? && o.spec.threshold == 1
    ensures Triggers(EMPTY, o) <==>
            exists j :: 0 <= j < |o.sources| && Trim(o.sources[j]) != "" && Trim(o.sources[j]) in o.spec.rules
  {
    hide Added, UniqueStrings, ValidObservation, Triggers;
    TriggersExactlyWhenMet([], o);
    WindowAfter([], o);
    var ids := EventIdsOf(o.spec.rules, Window([o], o));
    assert [] + [o] == [o] && EventIdsOf(o.spec.rules, Window([], o)) == {};
    assert forall r :: r in Window([o], o) <==> r in Added(EMPTY, o, o.key);
    if r :| r in Window([o], o) && r.rule in o.spec.rules && r.event != "" {
      AddedExactly(EMPTY, o, o.key, r);
      assert r.event in ids;
    } else {
      assert ids == {};
    }
    forall j | 0 <= j < |o.sources| && Trim(o.sources[j]) != "" && Trim(o.sources[j]) in o.spec.rules
      ensures ids != {}
    {
      var r := Record(Trim(o.sources[j]), o.event, o.time, o.value);
      AddedExactly(EMPTY, o, o.key, r);
      EventIsNotEmpty(o);
      assert r.event in ids;
    }
    NonEmptyCounts(ids);
  }

  lemma EventIsNotEmpty(o: Observation)
    requires ValidObservation(o)
    ensures o.event != ""
  {
    assert Trim("") == "";
  }

  lemma NonEmptyCounts(s: set<string>)
    ensures |s| >= 1 <==> s != {}
  {
  }
}
