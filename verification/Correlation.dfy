/**
 Evaluation of a correlation rule over a window of rule hits.

 The executable part mirrors `EvaluateCorrelation` and `matchTemporal`; the
 declarative part (`Meets`) says what the four rule types mean without any
 order of records, and the theorems at the end tie the two together.
 */
module Correlation {
  import opened Options
  import opened Ordering

  datatype Record = Record(rule: string, event: string, time: int, value: string)

  datatype Kind = EventCount | ValueCount | Temporal | TemporalOrdered | Unknown(name: string)

  datatype Spec = Spec(kind: Kind, rules: seq<string>, timespanSeconds: int, threshold: int)

  datatype Evaluation = Evaluation(
    satisfied: bool, triggered: bool, count: nat, distinctValues: nat, eventIds: seq<string>)

  const NO_EVALUATION := Evaluation(false, false, 0, 0, [])
  const MAXIMUM_EVIDENCE_IDS := 1000

  // ----- the sort key -----

  /** Everything the sort compares and the matchers look at. */
  datatype Key = Key(time: int, event: string, rule: string)

  function KeyOf(r: Record): Key {
    Key(r.time, r.event, r.rule)
  }

  function KeysOf(s: seq<Record>): (k: seq<Key>) {
    seq(|s|, i requires 0 <= i < |s| => KeyOf(s[i]))
  }

  /** The order of (event time, event ID), which ignores the rule. */
  predicate StampLess(t: int, e: string, t': int, e': string) {
    t < t' || (t == t' && Less(e, e'))
  }

  predicate KeyLess(a: Key, b: Key) {
    StampLess(a.time, a.event, b.time, b.event)
    || (a.time == b.time && a.event == b.event && Less(a.rule, b.rule))
  }

  lemma KeyLessIsTransitive(a: Key, b: Key, c: Key)
    requires KeyLess(a, b) && KeyLess(b, c)
    ensures KeyLess(a, c)
  {
    if Less(a.event, b.event) && Less(b.event, c.event) {
      LessIsTransitive(a.event, b.event, c.event);
    }
    if Less(a.rule, b.rule) && Less(b.rule, c.rule) {
      LessIsTransitive(a.rule, b.rule, c.rule);
    }
  }

  lemma KeyLessIsTotal(a: Key, b: Key)
    ensures a == b || KeyLess(a, b) || KeyLess(b, a)
  {
    LessIsTotal(a.event, b.event);
    LessIsTotal(a.rule, b.rule);
  }

  lemma KeyLessIsAsymmetric(a: Key, b: Key)
    requires KeyLess(a, b)
    ensures !KeyLess(b, a) && a != b
  {
    if KeyLess(b, a) || a == b {
      if KeyLess(b, a) {
        KeyLessIsTransitive(a, b, a);
      }
      LessIsIrreflexive(a.event);
      LessIsIrreflexive(a.rule);
    }
  }

  ghost predicate Sorted(s: seq<Key>) {
    forall i, j :: 0 <= i < j < |s| ==> !KeyLess(s[j], s[i])
  }

  // ----- sorting, and why its instability does not matter -----

  function Insert(r: Record, s: seq<Record>): (t: seq<Record>)
    ensures multiset(t) == multiset(s) + multiset{r}
  {
    if s == [] then [r]
    else
      assert s == [s[0]] + s[1..];
      if KeyLess(KeyOf(s[0]), KeyOf(r)) then [s[0]] + Insert(r, s[1..]) else [r] + s
  }

  /** One sorted arrangement; `SortedKeysAreUnique` shows the choice is immaterial. */
  function Sort(s: seq<Record>): (t: seq<Record>)
    ensures multiset(t) == multiset(s)
  {
    if s == [] then []
    else
      assert s == [s[0]] + s[1..];
      Insert(s[0], Sort(s[1..]))
  }

  lemma SortedCons(r: Record, s: seq<Record>)
    requires Sorted(KeysOf(s))
    requires forall x <- s :: !KeyLess(KeyOf(x), KeyOf(r))
    ensures Sorted(KeysOf([r] + s))
  {
    var k := KeysOf([r] + s);
    forall i, j | 0 <= i < j < |k|
      ensures !KeyLess(k[j], k[i])
    {
      assert k[j] == KeysOf(s)[j - 1] == KeyOf(s[j - 1]) && s[j - 1] in s;
      if i > 0 {
        assert k[i] == KeysOf(s)[i - 1];
      }
    }
  }

  lemma SortedTail(s: seq<Record>)
    requires s != [] && Sorted(KeysOf(s))
    ensures Sorted(KeysOf(s[1..]))
    ensures forall x <- s[1..] :: !KeyLess(KeyOf(x), KeyOf(s[0]))
  {
    var k := KeysOf(s);
    assert KeysOf(s[1..]) == k[1..];
    forall x | x in s[1..]
      ensures !KeyLess(KeyOf(x), KeyOf(s[0]))
    {
      var i :| 0 <= i < |s| - 1 && s[1..][i] == x;
      assert !KeyLess(k[i + 1], k[0]);
    }
  }

  lemma {:induction false} InsertKeepsSorted(r: Record, s: seq<Record>)
    requires Sorted(KeysOf(s))
    ensures Sorted(KeysOf(Insert(r, s)))
  {
    if s != [] {
      SortedTail(s);
      if KeyLess(KeyOf(s[0]), KeyOf(r)) {
        InsertKeepsSorted(r, s[1..]);
        KeyLessIsAsymmetric(KeyOf(s[0]), KeyOf(r));
        var t := Insert(r, s[1..]);
        assert forall x <- t :: x in multiset(t) && (x == r || x in multiset(s[1..]));
        SortedCons(s[0], t);
      } else {
        forall x | x in s
          ensures !KeyLess(KeyOf(x), KeyOf(r))
        {
          NotBelowMinimum(x, s, r);
        }
        SortedCons(r, s);
      }
    }
  }

  lemma NotBelowMinimum(x: Record, s: seq<Record>, r: Record)
    requires s != [] && x in s && Sorted(KeysOf(s)) && !KeyLess(KeyOf(s[0]), KeyOf(r))
    ensures !KeyLess(KeyOf(x), KeyOf(r))
  {
    if KeyLess(KeyOf(x), KeyOf(r)) {
      SortedTail(s);
      assert x == s[0] || x in s[1..];
      KeyLessIsTotal(KeyOf(x), KeyOf(s[0]));
      KeyLessIsTransitive(KeyOf(s[0]), KeyOf(x), KeyOf(r));
    }
  }

  lemma {:induction false} SortSorts(s: seq<Record>)
    ensures Sorted(KeysOf(Sort(s)))
  {
    if s != [] {
      SortSorts(s[1..]);
      InsertKeepsSorted(s[0], Sort(s[1..]));
    }
  }

  /** Removing one occurrence of a common element from two permutations. */
  lemma DropCommon<T>(s: seq<T>, t: seq<T>, j: nat)
    requires s != [] && j < |t| && t[j] == s[0] && multiset(s) == multiset(t)
    ensures multiset(s[1..]) == multiset(t[..j] + t[j + 1..])
    ensures t == t[..j] + ([t[j]] + t[j + 1..])
  {
    assert s == [s[0]] + s[1..];
    assert t == t[..j] + ([t[j]] + t[j + 1..]);
    assert multiset(s) == multiset{s[0]} + multiset(s[1..]);
    assert multiset(t) == multiset(t[..j]) + (multiset{t[j]} + multiset(t[j + 1..])) by {
      assert multiset([t[j]] + t[j + 1..]) == multiset{t[j]} + multiset(t[j + 1..]);
    }
    assert multiset(t[..j] + t[j + 1..]) == multiset(t[..j]) + multiset(t[j + 1..]);
    assert multiset(s) - multiset{s[0]} == multiset(s[1..]);
  }

  lemma {:induction false} KeysOfPermutation(s: seq<Record>, t: seq<Record>)
    requires multiset(s) == multiset(t)
    ensures multiset(KeysOf(s)) == multiset(KeysOf(t))
  {
    if s == [] {
      assert |t| == |multiset(t)| == 0;
    } else {
      assert s[0] in multiset(t);
      var j :| 0 <= j < |t| && t[j] == s[0];
      var t' := t[..j] + t[j + 1..];
      DropCommon(s, t, j);
      KeysOfPermutation(s[1..], t');
      assert KeysOf(s) == [KeyOf(s[0])] + KeysOf(s[1..]);
      var kt := KeysOf(t);
      assert kt == kt[..j] + [kt[j]] + kt[j + 1..];
      assert KeysOf(t') == kt[..j] + kt[j + 1..];
    }
  }

  lemma SameLeast(a: seq<Key>, b: seq<Key>)
    requires a != [] && b != [] && multiset(a) == multiset(b) && Sorted(a) && Sorted(b)
    ensures a[0] == b[0]
  {
    hide KeyLess;
    assert a[0] in multiset(b) && b[0] in multiset(a);
    var i :| 0 <= i < |a| && a[i] == b[0];
    var j :| 0 <= j < |b| && b[j] == a[0];
    KeyLessIsTotal(a[0], b[0]);
  }

  lemma {:induction false} SortedKeysAreUnique(a: seq<Key>, b: seq<Key>)
    requires multiset(a) == multiset(b) && Sorted(a) && Sorted(b)
    ensures a == b
  {
    hide KeyLess;
    if a == [] {
      assert |b| == |multiset(b)| == 0;
    } else {
      assert |a| == |multiset(a)| == |multiset(b)| == |b|;
      SameLeast(a, b);
      DropHeads(a, b);
      SortedKeysAreUnique(a[1..], b[1..]);
      assert a == [a[0]] + a[1..] && b == [b[0]] + b[1..];
    }
  }

  // ----- distinct event IDs and values -----

  function UniqueIds(keys: seq<Key>, seen: set<string>): (ids: seq<string>)
    ensures forall x :: x in ids <==> x != "" && x !in seen && exists i :: 0 <= i < |keys| && keys[i].event == x
    ensures Distinct(ids)
  {
    if keys == [] then []
    else
      var e := keys[0].event;
      assert forall i :: 0 < i < |keys| ==> keys[i] == keys[1..][i - 1];
      if e != "" && e !in seen then
        [e] + UniqueIds(keys[1..], seen + {e})
      else
        UniqueIds(keys[1..], seen)
  }

  /** An event ID is listed behind the others when it occurs for the first time. */
  lemma {:induction false} UniqueIdsKeepOrder(keys: seq<Key>, k: Key, seen: set<string>)
    ensures UniqueIds([], seen) == []
    ensures UniqueIds(keys + [k], seen) ==
            UniqueIds(keys, seen) +
            (if k.event != "" && k.event !in seen && k.event !in UniqueIds(keys, seen) then [k.event] else [])
  {
    if keys == [] {
      assert keys + [k] == [k] && [k][1..] == [];
    } else {
      assert (keys + [k])[1..] == keys[1..] + [k];
      var e := keys[0].event;
      UniqueIdsKeepOrder(keys[1..], k, if e != "" then seen + {e} else seen);
      UniqueIdsKeepOrder(keys[1..], k, seen);
    }
  }

  function ValuesOf(s: seq<Record>): (v: set<string>) {
    set r | r in s && r.value != "" :: r.value
  }

  function Bounded(ids: seq<string>): seq<string> {
    if |ids| <= MAXIMUM_EVIDENCE_IDS then ids else ids[..MAXIMUM_EVIDENCE_IDS]
  }

  /** The hits whose rule the spec lists, in their original order. */
  function Allowed(rules: seq<string>, s: seq<Record>): (t: seq<Record>)
    ensures forall r :: r in t <==> r in s && r.rule in rules
  {
    if s == [] then []
    else
      assert s == [s[0]] + s[1..];
      if s[0].rule in rules then [s[0]] + Allowed(rules, s[1..]) else Allowed(rules, s[1..])
  }

  lemma {:induction false} AllowedAppend(rules: seq<string>, s: seq<Record>, t: seq<Record>)
    ensures Allowed(rules, s + t) == Allowed(rules, s) + Allowed(rules, t)
  {
    if s == [] {
      assert s + t == t;
    } else {
      assert (s + t)[1..] == s[1..] + t;
      AllowedAppend(rules, s[1..], t);
    }
  }

  /** One more hit is kept behind the others if its rule is listed, so order and repetitions are kept. */
  lemma AllowedKeepsOrder(rules: seq<string>, s: seq<Record>, r: Record)
    ensures Allowed(rules, []) == []
    ensures Allowed(rules, s + [r]) == Allowed(rules, s) + (if r.rule in rules then [r] else [])
  {
    AllowedAppend(rules, s, [r]);
    assert [r][1..] == [];
  }

  lemma {:induction false} AllowedPermutation(rules: seq<string>, s: seq<Record>, t: seq<Record>)
    requires multiset(s) == multiset(t)
    ensures multiset(Allowed(rules, s)) == multiset(Allowed(rules, t))
  {
    if s == [] {
      assert |t| == |multiset(t)| == 0;
    } else {
      assert s[0] in multiset(t);
      var j :| 0 <= j < |t| && t[j] == s[0];
      DropCommon(s, t, j);
      assert s == [s[0]] + s[1..];
      AllowedPermutation(rules, s[1..], t[..j] + t[j + 1..]);
      AllowedAppend(rules, t[..j], t[j + 1..]);
      AllowedAppend(rules, t[..j], [t[j]] + t[j + 1..]);
      AllowedAppend(rules, [t[j]], t[j + 1..]);
      AllowedAppend(rules, [s[0]], s[1..]);
    }
  }

  // ----- temporal matching -----

  /** First index at or after `from` that hits `rule` with an unused event, or |keys|. */
  function FirstFit(rule: string, keys: seq<Key>, from: nat, used: set<string>): (i: nat)
    requires from <= |keys|
    ensures from <= i <= |keys|
    ensures i < |keys| ==> keys[i].rule == rule && keys[i].event !in used
    ensures forall k :: from <= k < i ==> keys[k].rule != rule || keys[k].event in used
    decreases |keys| - from
  {
    if from == |keys| || (keys[from].rule == rule && keys[from].event !in used) then from
    else FirstFit(rule, keys, from + 1, used)
  }

  /** The greedy ordered matcher: the indices it takes, or None. */
  function Greedy(rules: seq<string>, keys: seq<Key>, from: nat, used: set<string>): (r: Option<seq<nat>>)
    requires from <= |keys|
    ensures r.Some? ==> |r.value| == |rules| && forall k :: 0 <= k < |rules| ==> r.value[k] < |keys|
  {
    if rules == [] then Some([])
    else
      var i := FirstFit(rules[0], keys, from, used);
      if i == |keys| then None
      else
        match Greedy(rules[1..], keys, i + 1, used + {keys[i].event})
        case None => None
        case Some(rest) => Some([i] + rest)
  }

  /** The backtracking matcher, trying records for rules[0] from index `from` on. */
  function Search(rules: seq<string>, keys: seq<Key>, used: set<string>, from: nat): (r: Option<seq<string>>)
    requires from <= |keys|
    ensures r.Some? ==> |r.value| == |rules|
    decreases |rules|, |keys| - from
  {
    if rules == [] then Some([])
    else if from == |keys| then None
    else if keys[from].rule == rules[0] && keys[from].event !in used then
      match Search(rules[1..], keys, used + {keys[from].event}, 0)
      case Some(rest) => Some([keys[from].event] + rest)
      case None => Search(rules, keys, used, from + 1)
    else
      Search(rules, keys, used, from + 1)
  }

  function EventsAt(keys: seq<Key>, picks: seq<nat>): (ids: seq<string>)
    requires forall k :: 0 <= k < |picks| ==> picks[k] < |keys|
  {
    seq(|picks|, k requires 0 <= k < |picks| => keys[picks[k]].event)
  }

  function Match(rules: seq<string>, keys: seq<Key>, ordered: bool): (r: Option<seq<string>>)
    ensures r.Some? ==> |r.value| == |rules|
  {
    if ordered then
      match Greedy(rules, keys, 0, {})
      case None => None
      case Some(picks) => Some(EventsAt(keys, picks))
    else
      Search(rules, keys, {}, 0)
  }

  /** The result of evaluating `spec` on hits already filtered and sorted. */
  function EvaluateSorted(spec: Spec, hits: seq<Record>): Evaluation {
    var ids := UniqueIds(KeysOf(hits), {});
    var values := |ValuesOf(hits)|;
    match spec.kind
    case EventCount => Evaluation(|ids| >= spec.threshold, false, |ids|, values, Bounded(ids))
    case ValueCount => Evaluation(values >= spec.threshold, false, |ids|, values, Bounded(ids))
    case Unknown(_) => NO_EVALUATION
    case _ =>
      match Match(spec.rules, KeysOf(hits), spec.kind.TemporalOrdered?)
      case None => NO_EVALUATION
      case Some(matched) => Evaluation(true, false, |matched|, 0, matched)
  }

  function Evaluate(spec: Spec, records: seq<Record>): Evaluation {
    EvaluateSorted(spec, Sort(Allowed(spec.rules, records)))
  }

  lemma SameKeysAndValues(a: seq<Record>, b: seq<Record>)
    requires multiset(a) == multiset(b) && Sorted(KeysOf(a)) && Sorted(KeysOf(b))
    ensures KeysOf(a) == KeysOf(b) && ValuesOf(a) == ValuesOf(b)
  {
    KeysOfPermutation(a, b);
    SortedKeysAreUnique(KeysOf(a), KeysOf(b));
    assert forall r :: r in a <==> r in multiset(a);
    assert forall r :: r in b <==> r in multiset(b);
  }

  /** Whatever order an unstable sort leaves equal keys in, the result is the same. */
  lemma AnySortGivesEvaluate(spec: Spec, records: seq<Record>, sorted: seq<Record>)
    requires multiset(sorted) == multiset(Allowed(spec.rules, records)) && Sorted(KeysOf(sorted))
    ensures EvaluateSorted(spec, sorted) == Evaluate(spec, records)
  {
    hide Match, UniqueIds, Sort, Sorted, ValuesOf, KeysOf;
    var hits := Allowed(spec.rules, records);
    SortSorts(hits);
    SameKeysAndValues(sorted, Sort(hits));
  }

  /** Evaluation does not depend on the order in which the records arrive. */
  lemma EvaluatePermutation(spec: Spec, a: seq<Record>, b: seq<Record>)
    requires multiset(a) == multiset(b)
    ensures Evaluate(spec, a) == Evaluate(spec, b)
  {
    AllowedPermutation(spec.rules, a, b);
    SortSorts(Allowed(spec.rules, a));
    AnySortGivesEvaluate(spec, b, Sort(Allowed(spec.rules, a)));
  }
}
