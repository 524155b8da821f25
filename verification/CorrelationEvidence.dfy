/**
 What an evaluation reports, field by field, in terms of the set of records:
 the counts, and which events are returned as evidence in which order.
 */
module CorrelationEvidence {
  import opened Options
  import opened Ordering
  import opened Correlation
  import opened CorrelationMeaning

  // ----- the order of the evidence -----

  /** At or before position `p`, where `x` is, there is no `y`. */
  ghost predicate ComesFirst(keys: seq<Key>, p: nat, x: string, y: string) {
    p < |keys| && keys[p].event == x && forall q :: 0 <= q <= p ==> keys[q].event != y
  }

  lemma ComesFirstLater(keys: seq<Key>, p: nat, x: string, y: string)
    requires keys != [] && ComesFirst(keys[1..], p, x, y) && keys[0].event != y
    ensures ComesFirst(keys, p + 1, x, y)
  {
    forall q | 0 <= q <= p + 1
      ensures keys[q].event != y
    {
      if q > 0 {
        assert keys[1..][q - 1] == keys[q];
      }
    }
  }

  lemma {:induction false} UniqueIdsInOrder(keys: seq<Key>, seen: set<string>, i: nat, j: nat)
    requires i < j < |UniqueIds(keys, seen)|
    ensures exists p :: ComesFirst(keys, p, UniqueIds(keys, seen)[i], UniqueIds(keys, seen)[j])
  {
    var ids, e := UniqueIds(keys, seen), keys[0].event;
    assert ids[j] in ids;
    if e != "" && e !in seen {
      var rest := UniqueIds(keys[1..], seen + {e});
      assert ids == [e] + rest && rest[j - 1] in rest;
      if i == 0 {
        assert ComesFirst(keys, 0, ids[0], ids[j]);
      } else {
        UniqueIdsInOrder(keys[1..], seen + {e}, i - 1, j - 1);
        var p: nat :| ComesFirst(keys[1..], p, ids[i], ids[j]);
        ComesFirstLater(keys, p, ids[i], ids[j]);
      }
    } else {
      UniqueIdsInOrder(keys[1..], seen, i, j);
      var p: nat :| ComesFirst(keys[1..], p, ids[i], ids[j]);
      ComesFirstLater(keys, p, ids[i], ids[j]);
    }
  }

  /** Some listed hit of event `x` is before every listed hit of event `y`. */
  ghost predicate SeenBefore(rules: seq<string>, s: set<Record>, x: string, y: string) {
    exists r :: r in s && r.rule in rules && r.event == x && PrecedesAll(rules, s, r, y)
  }

  ghost predicate PrecedesAll(rules: seq<string>, s: set<Record>, r: Record, y: string) {
    forall q :: q in s && q.rule in rules && q.event == y ==> Before(StampOf(r), StampOf(q))
  }

  lemma SortedOrderIsTime(rules: seq<string>, s: set<Record>, hits: seq<Record>, p: nat, x: string, y: string)
    requires Sorted(KeysOf(hits)) && forall r :: r in hits <==> r in s && r.rule in rules
    requires ComesFirst(KeysOf(hits), p, x, y)
    ensures SeenBefore(rules, s, x, y)
  {
    var keys, r := KeysOf(hits), hits[p];
    assert r in hits && keys[p] == KeyOf(r);
    forall q | q in s && q.rule in rules && q.event == y
      ensures Before(StampOf(r), StampOf(q))
    {
      var i := IndexOf(q, hits);
      assert keys[i] == KeyOf(q);
      assert i > p && !KeyLess(keys[i], keys[p]);
      StampsAreTotal(StampOf(r), StampOf(q));
    }
    assert PrecedesAll(rules, s, r, y);
  }

  // ----- the fields of an evaluation -----

  /** `ids` are the first events of the listed hits, at most 1000, in the order in which they are first seen. */
  ghost predicate FirstEvents(rules: seq<string>, s: set<Record>, ids: seq<string>) {
    && Distinct(ids)
    && (forall x :: x in ids ==> x in EventIdsOf(rules, s))
    && |ids| == (if |EventIdsOf(rules, s)| < 1000 then |EventIdsOf(rules, s)| else 1000)
    && (forall i, j :: 0 <= i < j < |ids| ==> SeenBefore(rules, s, ids[i], ids[j]))
    && (forall i, x :: 0 <= i < |ids| && x in EventIdsOf(rules, s) && x !in ids ==> SeenBefore(rules, s, ids[i], x))
  }

  lemma UniqueIdsBySight(rules: seq<string>, records: seq<Record>)
    ensures var ids := UniqueIds(KeysOf(Sort(Allowed(rules, records))), {});
            && Elements(ids) == EventIdsOf(rules, Elements(records))
            && forall i, j :: 0 <= i < j < |ids| ==> SeenBefore(rules, Elements(records), ids[i], ids[j])
  {
    hide UniqueIds, SeenBefore, Sort, Allowed;
    var hits := Sort(Allowed(rules, records));
    var ids := UniqueIds(KeysOf(hits), {});
    UniqueIdsAre(rules, records);
    SortedElements(rules, records);
    SortSorts(Allowed(rules, records));
    forall i, j | 0 <= i < j < |ids|
      ensures SeenBefore(rules, Elements(records), ids[i], ids[j])
    {
      UniqueIdsInOrder(KeysOf(hits), {}, i, j);
      var p: nat :| ComesFirst(KeysOf(hits), p, ids[i], ids[j]);
      SortedOrderIsTime(rules, Elements(records), hits, p, ids[i], ids[j]);
    }
  }

  lemma BoundedIsFirst(rules: seq<string>, s: set<Record>, ids: seq<string>)
    requires Distinct(ids) && Elements(ids) == EventIdsOf(rules, s)
    requires forall i, j :: 0 <= i < j < |ids| ==> SeenBefore(rules, s, ids[i], ids[j])
    ensures FirstEvents(rules, s, Bounded(ids))
  {
    hide SeenBefore, EventIdsOf;
    DistinctCardinality(ids);
    var first := Bounded(ids);
    forall i, x | 0 <= i < |first| && x in EventIdsOf(rules, s) && x !in first
      ensures SeenBefore(rules, s, first[i], x)
    {
      assert x in Elements(ids);
      var j :| 0 <= j < |ids| && ids[j] == x;
      assert forall k :: 0 <= k < |first| ==> ids[k] == first[k] && first[k] in first;
    }
    forall x | x in first
      ensures x in EventIdsOf(rules, s)
    {
      assert x in Elements(ids);
    }
  }

  /**
   The report of a count rule: both counts are the numbers of events and values
   in the records, the verdict compares the rule's own one with the threshold,
   and the evidence is the earliest events in the order in which they are seen.
   */
  lemma CountReport(spec: Spec, records: seq<Record>)
    requires spec.kind.EventCount? || spec.kind.ValueCount?
    ensures var e, s := Evaluate(spec, records), Elements(records);
            && e.count == |EventIdsOf(spec.rules, s)|
            && e.distinctValues == |ValuesIn(spec.rules, s)|
            && e.satisfied == ((if spec.kind.EventCount? then e.count else e.distinctValues) >= spec.threshold)
            && FirstEvents(spec.rules, s, e.eventIds)
  {
    hide UniqueIds, Sort, Allowed, FirstEvents, SeenBefore, ValuesOf, ValuesIn, EventIdsOf;
    CountsAreCardinalities(spec, records);
    UniqueIdsBySight(spec.rules, records);
    BoundedIsFirst(spec.rules, Elements(records), UniqueIds(KeysOf(Sort(Allowed(spec.rules, records))), {}));
  }

  /** The report of a temporal rule: one event per rule if it is satisfied, otherwise nothing. */
  lemma TemporalReport(spec: Spec, records: seq<Record>)
    requires !spec.kind.EventCount? && !spec.kind.ValueCount?
    ensures var e := Evaluate(spec, records);
            && e.count == |e.eventIds| == (if e.satisfied then |spec.rules| else 0)
            && e.distinctValues == 0 && (spec.kind.Unknown? ==> !e.satisfied)
  {
    hide Match;
  }
}
