/**
 The executable evaluation: filter, sort, count or match. Each method is proved
 equal to the specification function that the meaning theorems are about.
 */
module CorrelationEngine {
  import opened Options
  import opened Ordering
  import opened Correlation

  /** The state shared by the recursive closure of unordered matching. */
  class RepresentativeSearch {
    const rules: seq<string>
    const records: seq<Record>
    const chosen: array<string>
    var used: set<string>

    constructor (rules: seq<string>, records: seq<Record>)
      ensures this.rules == rules && this.records == records
      ensures chosen.Length == |rules| && fresh(chosen) && used == {}
    {
      this.rules := rules;
      this.records := records;
      this.chosen := new string[|rules|](_ => "");
      this.used := {};
    }

    /** Tries every record for rules[position]; a failed branch leaves `used` as it found it. */
    method Assign(position: nat) returns (ok: bool)
      requires position <= |rules| == chosen.Length
      modifies this`used, chosen
      ensures var found := Search(rules[position..], KeysOf(records), old(used), 0);
              && ok == found.Some?
              && (ok ==> chosen[..] == old(chosen[..position]) + found.value)
      ensures !ok ==> used == old(used) && chosen[..position] == old(chosen[..position])
      decreases |rules| - position
    {
      if position == |rules| {
        return true;
      }
      ghost var rest := rules[position..];
      ghost var keys := KeysOf(records);
      for index := 0 to |records|
        invariant used == old(used)
        invariant chosen[..position] == old(chosen[..position])
        invariant Search(rest, keys, used, 0) == Search(rest, keys, used, index)
      {
        var record := records[index];
        if record.rule != rules[position] || record.event in used {
          continue;
        }
        used := used + {record.event};
        chosen[position] := record.event;
        assert rest[1..] == rules[position + 1..];
        assert chosen[..position + 1] == old(chosen[..position]) + [record.event];
        var done := Assign(position + 1);
        if done {
          return true;
        }
        assert chosen[..position] == chosen[..position + 1][..position];
        used := used - {record.event};
        assert used == old(used);
      }
      return false;
    }
  }

  method MatchTemporal(rules: seq<string>, records: seq<Record>, ordered: bool)
    returns (ids: seq<string>, ok: bool)
    ensures ok == Match(rules, KeysOf(records), ordered).Some?
    ensures ids == if ok then Match(rules, KeysOf(records), ordered).value else []
  {
    if ordered {
      ids, ok := MatchOrdered(rules, records);
    } else {
      var search := new RepresentativeSearch(rules, records);
      assert rules[0..] == rules;
      ok := search.Assign(0);
      assert search.chosen[..0] == [];
      ids := if ok then search.chosen[..] else [];
    }
  }

  /** The scan of one rule: the first record from `start` on that hits it with an unused event. */
  method NextFit(rule: string, records: seq<Record>, start: nat, used: set<string>) returns (index: nat)
    requires start <= |records|
    ensures index == FirstFit(rule, KeysOf(records), start, used)
  {
    index := start;
    while index < |records|
      invariant start <= index <= |records|
      invariant FirstFit(rule, KeysOf(records), start, used) == FirstFit(rule, KeysOf(records), index, used)
    {
      if records[index].rule != rule || records[index].event in used {
        index := index + 1;
        continue;
      }
      break;
    }
  }

  /** The events the greedy matcher still takes for `rules`, after those in `ids`. */
  ghost function Continue(ids: seq<string>, rules: seq<string>, keys: seq<Key>, from: nat, used: set<string>)
    : (r: Option<seq<string>>)
    requires from <= |keys|
  {
    match Greedy(rules, keys, from, used)
    case None => None
    case Some(picks) => Some(ids + EventsAt(keys, picks))
  }

  lemma ContinueStep(ids: seq<string>, rules: seq<string>, keys: seq<Key>, from: nat, used: set<string>)
    requires from <= |keys| && rules != []
    ensures var i := FirstFit(rules[0], keys, from, used);
            Continue(ids, rules, keys, from, used) ==
              if i == |keys| then None
              else Continue(ids + [keys[i].event], rules[1..], keys, i + 1, used + {keys[i].event})
  {
    var i := FirstFit(rules[0], keys, from, used);
    if i < |keys| {
      var rest := Greedy(rules[1..], keys, i + 1, used + {keys[i].event});
      if rest.Some? {
        assert EventsAt(keys, [i] + rest.value) == [keys[i].event] + EventsAt(keys, rest.value);
        assert (ids + [keys[i].event]) + EventsAt(keys, rest.value) == ids + EventsAt(keys, [i] + rest.value);
      }
    }
  }

  method MatchOrdered(rules: seq<string>, records: seq<Record>) returns (ids: seq<string>, ok: bool)
    ensures ok == Match(rules, KeysOf(records), true).Some?
    ensures ids == if ok then Match(rules, KeysOf(records), true).value else []
  {
    var used: set<string> := {};
    var position := 0;
    ids := [];
    ghost var keys := KeysOf(records);
    ghost var whole := Match(rules, keys, true);
    assert rules[0..] == rules && (whole.Some? ==> [] + whole.value == whole.value);
    for k := 0 to |rules|
      invariant position <= |records|
      invariant whole == Continue(ids, rules[k..], keys, position, used)
    {
      ContinueStep(ids, rules[k..], keys, position, used);
      assert rules[k..][1..] == rules[k + 1..];
      var index := NextFit(rules[k], records, position, used);
      if index == |records| {
        return [], false;
      }
      var event := records[index].event;
      used := used + {event};
      ids := ids + [event];
      position := index + 1;
    }
    assert ids + [] == ids;
    return ids, true;
  }

  method UniqueEventIds(records: seq<Record>) returns (ids: seq<string>)
    ensures ids == UniqueIds(KeysOf(records), {})
  {
    var seen: set<string> := {};
    ids := [];
    ghost var keys := KeysOf(records);
    for i := 0 to |records|
      invariant UniqueIds(keys, {}) == ids + UniqueIds(keys[i..], seen)
    {
      assert keys[i..][1..] == keys[i + 1..];
      var event := records[i].event;
      if event != "" && event !in seen {
        seen := seen + {event};
        ids := ids + [event];
      }
    }
  }

  method DistinctValues(records: seq<Record>) returns (values: set<string>)
    ensures values == ValuesOf(records)
  {
    values := {};
    for i := 0 to |records|
      invariant values == ValuesOf(records[..i])
    {
      assert records[..i + 1] == records[..i] + [records[i]];
      if records[i].value != "" {
        values := values + {records[i].value};
      }
    }
    assert records[..|records|] == records;
  }

  method FilterAllowed(rules: seq<string>, records: seq<Record>) returns (filtered: seq<Record>)
    ensures filtered == Allowed(rules, records)
  {
    filtered := [];
    for i := 0 to |records|
      invariant Allowed(rules, records) == filtered + Allowed(rules, records[i..])
    {
      assert records[i..][1..] == records[i + 1..];
      if records[i].rule in rules {
        filtered := filtered + [records[i]];
      }
    }
  }

  /** The library sort: some sorted permutation, with no promise about equal keys. */
  method SortRecords(records: seq<Record>) returns (sorted: seq<Record>)
    ensures multiset(sorted) == multiset(records)
    ensures Sorted(KeysOf(sorted))
  {
    sorted := [];
    for i := 0 to |records|
      invariant multiset(sorted) == multiset(records[..i])
      invariant Sorted(KeysOf(sorted))
    {
      assert records[..i + 1] == records[..i] + [records[i]];
      InsertKeepsSorted(records[i], sorted);
      sorted := Insert(records[i], sorted);
    }
    assert records[..|records|] == records;
  }

  method EvaluateCorrelation(spec: Spec, records: seq<Record>) returns (r: Evaluation)
    ensures r == Evaluate(spec, records)
  {
    var filtered := FilterAllowed(spec.rules, records);
    var sorted := SortRecords(filtered);
    AnySortGivesEvaluate(spec, records, sorted);
    match spec.kind
    case EventCount =>
      var ids := UniqueEventIds(sorted);
      var values := DistinctValues(sorted);
      r := Evaluation(|ids| >= spec.threshold, false, |ids|, |values|, Bounded(ids));
    case ValueCount =>
      var values := DistinctValues(sorted);
      var ids := UniqueEventIds(sorted);
      r := Evaluation(|values| >= spec.threshold, false, |ids|, |values|, Bounded(ids));
    case Temporal =>
      var ids, satisfied := MatchTemporal(spec.rules, sorted, false);
      r := Evaluation(satisfied, false, |ids|, 0, ids);
    case TemporalOrdered =>
      var ids, satisfied := MatchTemporal(spec.rules, sorted, true);
      r := Evaluation(satisfied, false, |ids|, 0, ids);
    case Unknown(_) =>
      r := NO_EVALUATION;
  }
}
