/**
 What the four correlation types mean as statements about the set of records,
 with no sort, no search order and no index, and the proof that evaluation
 decides exactly that.
 */
module CorrelationMeaning {
  import opened Options
  import opened Ordering
  import opened Correlation

  // ----- ordered matching: the greedy matcher is sound and complete -----

  /** Records of one event are next to each other. */
  ghost predicate Contiguous(keys: seq<Key>) {
    forall i, j, k :: 0 <= i < j < k < |keys| && keys[i].event == keys[k].event ==> keys[j].event == keys[i].event
  }

  /** Strictly increasing indices at or after `from` that hit the rules in order with distinct unused events. */
  ghost predicate Choice(rules: seq<string>, keys: seq<Key>, from: nat, used: set<string>, c: seq<nat>) {
    && |c| == |rules|
    && (forall k :: 0 <= k < |c| ==> from <= c[k] < |keys|)
    && (forall k :: 0 <= k < |c| ==> keys[c[k]].rule == rules[k] && keys[c[k]].event !in used)
    && (forall i, j :: 0 <= i < j < |c| ==> c[i] < c[j] && keys[c[i]].event != keys[c[j]].event)
  }

  lemma {:induction false} GreedyIsSound(rules: seq<string>, keys: seq<Key>, from: nat, used: set<string>)
    requires from <= |keys|
    ensures forall c :: Greedy(rules, keys, from, used) == Some(c) ==> Choice(rules, keys, from, used, c)
  {
    hide FirstFit;
    if rules != [] && FirstFit(rules[0], keys, from, used) < |keys| {
      var i := FirstFit(rules[0], keys, from, used);
      GreedyIsSound(rules[1..], keys, i + 1, used + {keys[i].event});
    }
  }

  /** The exchange argument: the greedy first pick can replace the first pick of any choice. */
  lemma ExchangeFirstPick(rules: seq<string>, keys: seq<Key>, from: nat, used: set<string>, c: seq<nat>, i: nat)
    requires rules != [] && Contiguous(keys) && Choice(rules, keys, from, used, c)
    requires i <= c[0]
    ensures Choice(rules[1..], keys, i + 1, used + {keys[i].event}, c[1..])
  {
    forall k | 0 < k < |c|
      ensures i < c[k] && keys[c[k]].event != keys[i].event
    {
      // Otherwise c[0], which lies between i and c[k], would carry that event too.
      assert keys[c[0]].event != keys[c[k]].event;
    }
  }

  lemma {:induction false} GreedyIsComplete(
      rules: seq<string>, keys: seq<Key>, from: nat, used: set<string>, c: seq<nat>)
    requires from <= |keys| && Contiguous(keys) && Choice(rules, keys, from, used, c)
    ensures Greedy(rules, keys, from, used).Some?
  {
    hide FirstFit;
    if rules != [] {
      var i := FirstFit(rules[0], keys, from, used);
      ExchangeFirstPick(rules, keys, from, used, c, i);
      GreedyIsComplete(rules[1..], keys, i + 1, used + {keys[i].event}, c[1..]);
    }
  }

  lemma OrderedMatchExactly(rules: seq<string>, keys: seq<Key>)
    requires Contiguous(keys)
    ensures Match(rules, keys, true).Some? <==> exists c :: Choice(rules, keys, 0, {}, c)
    ensures Match(rules, keys, true).Some? ==>
              exists c :: Choice(rules, keys, 0, {}, c) && Match(rules, keys, true).value == EventsAt(keys, c)
  {
    if Greedy(rules, keys, 0, {}).Some? {
      GreedyIsSound(rules, keys, 0, {});
      assert Choice(rules, keys, 0, {}, Greedy(rules, keys, 0, {}).value);
    }
    forall c | Choice(rules, keys, 0, {}, c)
      ensures Greedy(rules, keys, 0, {}).Some?
    {
      GreedyIsComplete(rules, keys, 0, {}, c);
    }
  }

  // ----- unordered matching: the backtracking search is sound and complete -----

  /** The (rule, event) pairs present in a list of keys. */
  function Hits(keys: seq<Key>): set<(string, string)> {
    set k | k in keys :: (k.rule, k.event)
  }

  /** Pairwise distinct unused events, the k-th of which hits rules[k]. */
  ghost predicate Representatives(rules: seq<string>, hits: set<(string, string)>, used: set<string>, a: seq<string>) {
    && |a| == |rules|
    && Distinct(a)
    && forall k :: 0 <= k < |a| ==> (rules[k], a[k]) in hits && a[k] !in used
  }

  lemma {:induction false} SearchIsSound(rules: seq<string>, keys: seq<Key>, used: set<string>, from: nat)
    requires from <= |keys|
    ensures forall a :: Search(rules, keys, used, from) == Some(a) ==> Representatives(rules, Hits(keys), used, a)
    decreases |rules|, |keys| - from
  {
    if rules != [] && from < |keys| {
      var key := keys[from];
      if key.rule == rules[0] && key.event !in used && Search(rules[1..], keys, used + {key.event}, 0).Some? {
        SearchIsSound(rules[1..], keys, used + {key.event}, 0);
        assert key in keys && (key.rule, key.event) in Hits(keys);
      } else {
        SearchIsSound(rules, keys, used, from + 1);
      }
    }
  }

  lemma {:induction false} SearchIsComplete(
      rules: seq<string>, keys: seq<Key>, used: set<string>, from: nat, a: seq<string>, first: nat)
    requires from <= |keys| && Representatives(rules, Hits(keys), used, a)
    requires rules != [] ==> from <= first < |keys| && keys[first].rule == rules[0] && keys[first].event == a[0]
    ensures Search(rules, keys, used, from).Some?
    decreases |rules|, |keys| - from
  {
    if rules != [] {
      if from == first {
        if |rules| > 1 {
          assert (rules[1], a[1]) in Hits(keys);
          var next :| 0 <= next < |keys| && keys[next].rule == rules[1] && keys[next].event == a[1];
          SearchIsComplete(rules[1..], keys, used + {a[0]}, 0, a[1..], next);
        }
      } else {
        SearchIsComplete(rules, keys, used, from + 1, a, first);
      }
    }
  }

  lemma UnorderedMatchExactly(rules: seq<string>, keys: seq<Key>)
    ensures Match(rules, keys, false).Some? <==> exists a :: Representatives(rules, Hits(keys), {}, a)
    ensures forall a :: Match(rules, keys, false) == Some(a) ==> Representatives(rules, Hits(keys), {}, a)
  {
    if Search(rules, keys, {}, 0).Some? {
      SearchIsSound(rules, keys, {}, 0);
    }
    forall a | Representatives(rules, Hits(keys), {}, a)
      ensures Search(rules, keys, {}, 0).Some?
    {
      var first := 0;
      if rules != [] {
        assert (rules[0], a[0]) in Hits(keys);
        first :| 0 <= first < |keys| && keys[first].rule == rules[0] && keys[first].event == a[0];
      }
      SearchIsComplete(rules, keys, {}, 0, a, first);
    }
  }

  // ----- the meaning of a spec over a set of records -----

  ghost function EventIdsOf(rules: seq<string>, s: set<Record>): set<string> {
    set r | r in s && r.rule in rules && r.event != "" :: r.event
  }

  ghost function ValuesIn(rules: seq<string>, s: set<Record>): set<string> {
    set r | r in s && r.rule in rules && r.value != "" :: r.value
  }

  ghost function HitPairs(s: set<Record>): set<(string, string)> {
    set r | r in s :: (r.rule, r.event)
  }

  /** An event ID seen at a time. */
  type Stamp = (int, string)

  function StampOf(r: Record): Stamp {
    (r.time, r.event)
  }

  predicate Before(a: Stamp, b: Stamp) {
    StampLess(a.0, a.1, b.0, b.1)
  }

  /** The stamps of the hits whose rule is listed. */
  ghost function StampsIn(rules: seq<string>, s: set<Record>): set<Stamp> {
    set r | r in s && r.rule in rules :: StampOf(r)
  }

  ghost function StampsOf(s: set<Record>): set<Stamp> {
    set r | r in s :: StampOf(r)
  }

  /** No event is seen between two sightings of another. */
  ghost predicate Uninterleaved(s: set<Stamp>) {
    forall a, b, c :: a in s && b in s && c in s && a.1 == c.1 && Before(a, b) && Before(b, c) ==> b.1 == a.1
  }

  /** One record per rule, of distinct events, strictly later (by time, then event ID) from rule to rule. */
  ghost predicate Chain(rules: seq<string>, s: set<Record>, c: seq<Record>) {
    && |c| == |rules|
    && (forall k :: 0 <= k < |c| ==> c[k] in s && c[k].rule == rules[k])
    && (forall i, j :: 0 <= i < j < |c| ==> Before(StampOf(c[i]), StampOf(c[j])) && c[i].event != c[j].event)
  }

  ghost predicate Meets(spec: Spec, s: set<Record>) {
    match spec.kind
    case EventCount => |EventIdsOf(spec.rules, s)| >= spec.threshold
    case ValueCount => |ValuesIn(spec.rules, s)| >= spec.threshold
    case Temporal => exists a :: Representatives(spec.rules, HitPairs(s), {}, a)
    case TemporalOrdered => exists c :: Chain(spec.rules, s, c)
    case Unknown(_) => false
  }

  /** An event ID determines its event time. */
  ghost predicate OneTime(s: set<Record>) {
    forall a, b :: a in s && b in s && a.event == b.event ==> a.time == b.time
  }

  lemma UniqueIdsAre(rules: seq<string>, records: seq<Record>)
    ensures Elements(UniqueIds(KeysOf(Sort(Allowed(rules, records))), {})) == EventIdsOf(rules, Elements(records))
  {
    hide UniqueIds, Sort, Allowed;
    var hits := Sort(Allowed(rules, records));
    SortedElements(rules, records);
    forall r | r in records && r.rule in rules
      ensures r in hits && KeysOf(hits)[IndexOf(r, hits)].event == r.event
    {
      assert r in hits;
    }
    assert forall i :: 0 <= i < |hits| ==> hits[i] in hits && KeysOf(hits)[i].event == hits[i].event;
    UniqueIdsOf(KeysOf(hits));
    forall x
      ensures x in Elements(UniqueIds(KeysOf(hits), {})) <==> x in EventIdsOf(rules, Elements(records))
    {
      if i :| 0 <= i < |hits| && KeysOf(hits)[i].event == x && x != "" {
        assert hits[i] in Elements(records);
      }
    }
  }

  lemma UniqueIdsOf(keys: seq<Key>)
    ensures forall x :: x in Elements(UniqueIds(keys, {})) <==> x != "" && exists i :: 0 <= i < |keys| && keys[i].event == x
  {
  }

  lemma CountsAreCardinalities(spec: Spec, records: seq<Record>)
    ensures |UniqueIds(KeysOf(Sort(Allowed(spec.rules, records))), {})| == |EventIdsOf(spec.rules, Elements(records))|
    ensures ValuesOf(Sort(Allowed(spec.rules, records))) == ValuesIn(spec.rules, Elements(records))
  {
    UniqueIdsAre(spec.rules, records);
    SortedElements(spec.rules, records);
    DistinctCardinality(UniqueIds(KeysOf(Sort(Allowed(spec.rules, records))), {}));
  }

  lemma SortedElements(rules: seq<string>, records: seq<Record>)
    ensures forall r :: r in Sort(Allowed(rules, records)) <==> r in records && r.rule in rules
  {
    var hits := Allowed(rules, records);
    assert forall r :: r in Sort(hits) <==> r in multiset(Sort(hits));
    assert forall r :: r in hits <==> r in multiset(hits);
  }

  lemma StampsAreTotal(a: Stamp, b: Stamp)
    ensures a == b || Before(a, b) || Before(b, a)
  {
    LessIsTotal(a.1, b.1);
  }

  lemma BeforeIsTransitive(a: Stamp, b: Stamp, c: Stamp)
    requires Before(a, b) && Before(b, c)
    ensures Before(a, c)
  {
    if Less(a.1, b.1) && Less(b.1, c.1) {
      LessIsTransitive(a.1, b.1, c.1);
    }
  }

  lemma BeforeIsAsymmetric(a: Stamp, b: Stamp)
    ensures !(Before(a, b) && Before(b, a))
  {
    if Before(a, b) && Before(b, a) {
      BeforeIsTransitive(a, b, a);
      LessIsIrreflexive(a.1);
    }
  }

  /** Sorting puts the records of one event next to each other when no other event is seen in between. */
  lemma SortedIsContiguous(hits: seq<Record>)
    requires Sorted(KeysOf(hits)) && Uninterleaved(StampsOf(Elements(hits)))
    ensures Contiguous(KeysOf(hits))
  {
    hide StampLess;
    var keys := KeysOf(hits);
    forall i, j, k | 0 <= i < j < k < |keys| && keys[i].event == keys[k].event
      ensures keys[j].event == keys[i].event
    {
      var a, b, c := StampOf(hits[i]), StampOf(hits[j]), StampOf(hits[k]);
      assert hits[i] in hits && hits[j] in hits && hits[k] in hits;
      assert !KeyLess(keys[j], keys[i]) && !KeyLess(keys[k], keys[j]);
      StampsAreTotal(a, b);
      StampsAreTotal(b, c);
    }
  }

  /** An event ID that determines its time is never interleaved. */
  lemma OneTimeIsUninterleaved(s: set<Record>)
    requires OneTime(s)
    ensures Uninterleaved(StampsOf(s))
  {
    forall a, b
      ensures !(Before(a, b) && Before(b, a))
    {
      BeforeIsAsymmetric(a, b);
    }
  }

  lemma FewerAreUninterleaved(s: set<Stamp>, t: set<Stamp>)
    requires s <= t && Uninterleaved(t)
    ensures Uninterleaved(s)
  {
  }

  /** Index choices in the sorted list give chains. */
  lemma ChoiceGivesChain(rules: seq<string>, hits: seq<Record>, c: seq<nat>)
    requires Sorted(KeysOf(hits)) && Choice(rules, KeysOf(hits), 0, {}, c)
    ensures Chain(rules, Elements(hits), seq(|c|, k requires 0 <= k < |c| => hits[c[k]]))
  {
    var keys := KeysOf(hits);
    forall i, j | 0 <= i < j < |c|
      ensures Before(StampOf(hits[c[i]]), StampOf(hits[c[j]])) && hits[c[i]].event != hits[c[j]].event
    {
      assert !KeyLess(keys[c[j]], keys[c[i]]);
      LessIsTotal(keys[c[i]].event, keys[c[j]].event);
    }
  }

  function IndexOf(r: Record, s: seq<Record>): (i: nat)
    requires r in s
    ensures i < |s| && s[i] == r
  {
    if s[0] == r then 0 else 1 + IndexOf(r, s[1..])
  }

  lemma ChainGivesChoice(rules: seq<string>, hits: seq<Record>, c: seq<Record>)
    requires Sorted(KeysOf(hits)) && Chain(rules, Elements(hits), c)
    ensures exists p :: Choice(rules, KeysOf(hits), 0, {}, p)
  {
    var keys := KeysOf(hits);
    var p := seq(|c|, k requires 0 <= k < |c| => IndexOf(c[k], hits));
    forall i, j | 0 <= i < j < |c|
      ensures p[i] < p[j] && keys[p[i]].event != keys[p[j]].event
    {
      var x, y := keys[p[i]], keys[p[j]];
      assert x == KeyOf(c[i]) && y == KeyOf(c[j]) && KeyLess(x, y);
      KeyLessIsAsymmetric(x, y);
      LessIsIrreflexive(x.event);
      assert p[j] < p[i] ==> !KeyLess(x, y);
    }
    assert Choice(rules, keys, 0, {}, p);
  }

  lemma OrderedExactly(rules: seq<string>, hits: seq<Record>)
    requires Sorted(KeysOf(hits)) && Uninterleaved(StampsOf(Elements(hits)))
    ensures Match(rules, KeysOf(hits), true).Some? <==> exists c :: Chain(rules, Elements(hits), c)
  {
    SortedIsContiguous(hits);
    OrderedMatchExactly(rules, KeysOf(hits));
    if c :| Choice(rules, KeysOf(hits), 0, {}, c) {
      ChoiceGivesChain(rules, hits, c);
    }
    if c :| Chain(rules, Elements(hits), c) {
      ChainGivesChoice(rules, hits, c);
    }
  }

  lemma SameChains(rules: seq<string>, hits: set<Record>, records: set<Record>, c: seq<Record>)
    requires forall r :: r in hits <==> r in records && r.rule in rules
    ensures Chain(rules, hits, c) <==> Chain(rules, records, c)
  {
    assert forall k :: 0 <= k < |rules| ==> rules[k] in rules;
  }

  /** What is satisfied has the meaning; the converse holds for ordered rules when no listed hits are interleaved, otherwise always. */
  lemma EvaluateExactly(spec: Spec, records: seq<Record>)
    ensures Evaluate(spec, records).satisfied ==> Meets(spec, Elements(records))
    ensures !spec.kind.TemporalOrdered? || Uninterleaved(StampsIn(spec.rules, Elements(records))) ==>
              (Evaluate(spec, records).satisfied <==> Meets(spec, Elements(records)))
  {
    hide Uninterleaved, Chain;
    var hits := Sort(Allowed(spec.rules, records));
    SortedElements(spec.rules, records);
    CountsAreCardinalities(spec, records);
    match spec.kind
    case Temporal =>
      UnorderedMatchExactly(spec.rules, KeysOf(hits));
      SameRepresentatives(spec.rules, hits, records);
    case TemporalOrdered =>
      SortSorts(Allowed(spec.rules, records));
      assert StampsOf(Elements(hits)) == StampsIn(spec.rules, Elements(records));
      forall c {
        SameChains(spec.rules, Elements(hits), Elements(records), c);
      }
      if Evaluate(spec, records).satisfied {
        OrderedEvidence(spec, records);
      }
      if Uninterleaved(StampsOf(Elements(hits))) {
        OrderedExactly(spec.rules, hits);
      }
    case _ =>
  }

  lemma SameRepresentatives(rules: seq<string>, hits: seq<Record>, records: seq<Record>)
    requires forall r :: r in hits <==> r in records && r.rule in rules
    ensures forall a :: Representatives(rules, Hits(KeysOf(hits)), {}, a) <==>
                        Representatives(rules, HitPairs(Elements(records)), {}, a)
  {
    var keys := KeysOf(hits);
    forall rule, event | rule in rules
      ensures (rule, event) in Hits(keys) <==> (rule, event) in HitPairs(Elements(records))
    {
      if (rule, event) in Hits(keys) {
        var i :| 0 <= i < |keys| && keys[i].rule == rule && keys[i].event == event;
        assert hits[i] in hits;
      }
      if (rule, event) in HitPairs(Elements(records)) {
        var r :| r in records && r.rule == rule && r.event == event;
        assert r in hits;
        assert keys[IndexOf(r, hits)] == KeyOf(r);
      }
    }
    assert forall k :: 0 <= k < |rules| ==> rules[k] in rules;
  }

  /** More records never turn a met spec into an unmet one. */
  lemma MeetsIsMonotone(spec: Spec)
    ensures forall s, t :: s <= t && Meets(spec, s) ==> Meets(spec, t)
  {
    forall s, t | s <= t && Meets(spec, s)
      ensures Meets(spec, t)
    {
      match spec.kind
      case EventCount => SubsetCardinality(EventIdsOf(spec.rules, s), EventIdsOf(spec.rules, t));
      case ValueCount => SubsetCardinality(ValuesIn(spec.rules, s), ValuesIn(spec.rules, t));
      case Temporal =>
        var a :| Representatives(spec.rules, HitPairs(s), {}, a);
        assert Representatives(spec.rules, HitPairs(t), {}, a);
      case TemporalOrdered =>
        var c :| Chain(spec.rules, s, c);
        assert Chain(spec.rules, t, c);
      case Unknown(_) =>
    }
  }

  lemma EvaluateIsMonotone(spec: Spec, a: seq<Record>, b: seq<Record>)
    requires Elements(a) <= Elements(b)
    requires spec.kind.TemporalOrdered? ==> Uninterleaved(StampsIn(spec.rules, Elements(b)))
    requires Evaluate(spec, a).satisfied
    ensures Evaluate(spec, b).satisfied
  {
    hide Evaluate, Meets, Uninterleaved;
    if spec.kind.TemporalOrdered? {
      FewerAreUninterleaved(StampsIn(spec.rules, Elements(a)), StampsIn(spec.rules, Elements(b)));
    }
    EvaluateExactly(spec, a);
    MeetsIsMonotone(spec);
    EvaluateExactly(spec, b);
  }

  /** A satisfied temporal evaluation returns a witness: distinct events in rule order. */
  lemma TemporalEvidence(spec: Spec, records: seq<Record>)
    requires spec.kind.Temporal? && Evaluate(spec, records).satisfied
    ensures exists a :: Evaluate(spec, records).eventIds == a && Representatives(spec.rules, HitPairs(Elements(records)), {}, a)
  {
    var hits := Sort(Allowed(spec.rules, records));
    SortedElements(spec.rules, records);
    UnorderedMatchExactly(spec.rules, KeysOf(hits));
    SameRepresentatives(spec.rules, hits, records);
  }

  function EventsOf(c: seq<Record>): seq<string> {
    seq(|c|, k requires 0 <= k < |c| => c[k].event)
  }

  lemma OrderedEvidence(spec: Spec, records: seq<Record>)
    requires spec.kind.TemporalOrdered? && Evaluate(spec, records).satisfied
    ensures exists c :: Chain(spec.rules, Elements(records), c) && Evaluate(spec, records).eventIds == EventsOf(c)
  {
    hide Greedy, Chain, Sort, Allowed, Sorted;
    var hits := Sort(Allowed(spec.rules, records));
    SortedElements(spec.rules, records);
    SortSorts(Allowed(spec.rules, records));
    MatchedChain(spec.rules, hits);
    var c :| Chain(spec.rules, Elements(hits), c) && Match(spec.rules, KeysOf(hits), true).value == EventsOf(c);
    SameChains(spec.rules, Elements(hits), Elements(records), c);
  }

  lemma MatchedChain(rules: seq<string>, hits: seq<Record>)
    requires Sorted(KeysOf(hits)) && Match(rules, KeysOf(hits), true).Some?
    ensures exists c :: Chain(rules, Elements(hits), c) && Match(rules, KeysOf(hits), true).value == EventsOf(c)
  {
    hide Chain, Sorted;
    var keys := KeysOf(hits);
    GreedyIsSound(rules, keys, 0, {});
    var p := Greedy(rules, keys, 0, {}).value;
    ChoiceGivesChain(rules, hits, p);
    var c := seq(|p|, k requires 0 <= k < |p| => hits[p[k]]);
    assert EventsAt(keys, p) == EventsOf(c);
  }
}
