/**
 When ordered evaluation does what it means: exactly when no event is seen
 between two sightings of another. And what evaluation depends on: the set of
 records, for every rule type and whatever times the events have.
 */
module CorrelationExactness {
  import opened Options
  import opened Ordering
  import opened Correlation
  import opened CorrelationMeaning

  // ----- interleaved events -----

  /** On records with stamps in `s`, every ordered rule is decided by its meaning. */
  ghost predicate ExactOn(s: set<Stamp>) {
    forall spec: Spec, records: seq<Record> :: spec.kind.TemporalOrdered? && StampsOf(Elements(records)) <= s ==>
      (Evaluate(spec, records).satisfied <==> Meets(spec, Elements(records)))
  }

  /** On records with stamps in `s`, more records never make an ordered rule unsatisfied. */
  ghost predicate MonotoneOn(s: set<Stamp>) {
    forall spec: Spec, a: seq<Record>, b: seq<Record> :: spec.kind.TemporalOrdered? && Elements(a) <= Elements(b) && StampsOf(Elements(b)) <= s ==>
      Evaluate(spec, a).satisfied ==> Evaluate(spec, b).satisfied
  }

  /** Event `e` seen around event `f`: two hits of the first rule and one of the second. */
  function Around(p: string, q: string, a: Stamp, b: Stamp, c: Stamp): seq<Record> {
    [Record(p, a.1, a.0, ""), Record(p, b.1, b.0, ""), Record(q, c.1, c.0, "")]
  }

  function FirstThen(p: string, q: string): Spec {
    Spec(TemporalOrdered, [p, q], 60, 2)
  }

  lemma {:induction false} AllAllowed(rules: seq<string>, s: seq<Record>)
    requires forall r :: r in s ==> r.rule in rules
    ensures Allowed(rules, s) == s
  {
    if s != [] {
      AllAllowed(rules, s[1..]);
    }
  }

  lemma UnmatchedIsUnsatisfied(spec: Spec, records: seq<Record>)
    requires spec.kind.TemporalOrdered? && Allowed(spec.rules, records) == records && Sorted(KeysOf(records))
    requires Greedy(spec.rules, KeysOf(records), 0, {}).None?
    ensures !Evaluate(spec, records).satisfied
  {
    AnySortGivesEvaluate(spec, records, records);
  }

  lemma AroundIsSorted(p: string, q: string, a: Stamp, b: Stamp, c: Stamp)
    requires Before(a, b) && Before(b, c)
    ensures Sorted(KeysOf(Around(p, q, a, b, c)))
    ensures KeysOf(Around(p, q, a, b, c)) == [Key(a.0, a.1, p), Key(b.0, b.1, p), Key(c.0, c.1, q)]
  {
    hide StampLess;
    BeforeIsTransitive(a, b, c);
    var keys := [Key(a.0, a.1, p), Key(b.0, b.1, p), Key(c.0, c.1, q)];
    assert KeysOf(Around(p, q, a, b, c)) == keys;
    forall i, j | 0 <= i < j < 3
      ensures !KeyLess(keys[j], keys[i])
    {
      assert KeyLess(keys[i], keys[j]);
      KeyLessIsAsymmetric(keys[i], keys[j]);
    }
  }

  /** The greedy matcher spends the surrounding event on the first rule. */
  lemma GreedySpendsTheSharedEvent(keys: seq<Key>, p: string, q: string)
    requires |keys| == 3 && keys[0].rule == keys[1].rule == p && keys[2].rule == q && p != q
    requires keys[0].event == keys[2].event
    ensures Greedy([p, q], keys, 0, {}).None?
  {
    assert FirstFit(p, keys, 0, {}) == 0;
    assert [p, q][1..] == [q];
    var used: set<string> := {} + {keys[0].event};
    assert FirstFit(q, keys, 1, used) == 3;
    assert Greedy([q], keys, 1, used).None?;
  }

  lemma AroundIsMissed(p: string, q: string, a: Stamp, b: Stamp, c: Stamp)
    requires Before(a, b) && Before(b, c) && a.1 == c.1 && p != q
    ensures !Evaluate(FirstThen(p, q), Around(p, q, a, b, c)).satisfied
  {
    hide Evaluate, Before, Greedy;
    var spec, records := FirstThen(p, q), Around(p, q, a, b, c);
    AllAllowed(spec.rules, records);
    AroundIsSorted(p, q, a, b, c);
    GreedySpendsTheSharedEvent(KeysOf(records), p, q);
    UnmatchedIsUnsatisfied(spec, records);
  }

  lemma ChainAround(p: string, q: string, a: Stamp, b: Stamp, c: Stamp)
    requires Before(b, c) && b.1 != c.1
    ensures var spec, records := FirstThen(p, q), Around(p, q, a, b, c);
            && Meets(spec, Elements(records)) && Evaluate(spec, records[1..]).satisfied
  {
    hide Evaluate, Before;
    var spec, records := FirstThen(p, q), Around(p, q, a, b, c);
    var chain := records[1..];
    assert chain == [records[1], records[2]];
    assert Chain(spec.rules, Elements(chain), chain) && Chain(spec.rules, Elements(records), chain);
    assert StampsIn(spec.rules, Elements(chain)) <= {b, c};
    PairIsUninterleaved(b, c, StampsIn(spec.rules, Elements(chain)));
    EvaluateExactly(spec, chain);
  }

  /** Three stamps of two interleaved events, and the rule that misses its chain on them. */
  lemma GreedyMissesAround(p: string, q: string, a: Stamp, b: Stamp, c: Stamp)
    requires Before(a, b) && Before(b, c) && a.1 == c.1 && a.1 != b.1 && p != q
    ensures var spec, records := FirstThen(p, q), Around(p, q, a, b, c);
            && !Evaluate(spec, records).satisfied && Meets(spec, Elements(records))
            && Evaluate(spec, records[1..]).satisfied && Elements(records[1..]) <= Elements(records)
            && StampsOf(Elements(records)) <= {a, b, c}
  {
    hide Evaluate, Before, Meets;
    AroundIsMissed(p, q, a, b, c);
    ChainAround(p, q, a, b, c);
  }

  lemma PairIsUninterleaved(b: Stamp, c: Stamp, s: set<Stamp>)
    requires b.1 != c.1 && s <= {b, c}
    ensures Uninterleaved(s)
  {
    BeforeIsAsymmetric(b, b);
    BeforeIsAsymmetric(c, c);
    BeforeIsAsymmetric(b, c);
  }

  lemma StampsInAreFewer(rules: seq<string>, s: set<Record>)
    ensures StampsIn(rules, s) <= StampsOf(s)
  {
  }

  /**
   For every set of stamps: ordered evaluation decides its meaning on all records
   with these stamps exactly when no event is seen between two sightings of another.
   */
  lemma OrderedExactlyWhenUninterleaved(s: set<Stamp>)
    ensures ExactOn(s) <==> Uninterleaved(s)
  {
    hide Evaluate, Meets, Before;
    if Uninterleaved(s) {
      forall spec: Spec, records: seq<Record> | spec.kind.TemporalOrdered? && StampsOf(Elements(records)) <= s
        ensures Evaluate(spec, records).satisfied <==> Meets(spec, Elements(records))
      {
        StampsInAreFewer(spec.rules, Elements(records));
        FewerAreUninterleaved(StampsIn(spec.rules, Elements(records)), s);
        EvaluateExactly(spec, records);
      }
    } else {
      var a, b, c :| a in s && b in s && c in s && a.1 == c.1 && Before(a, b) && Before(b, c) && b.1 != a.1;
      assert "p" != "q";
      GreedyMissesAround("p", "q", a, b, c);
    }
  }

  /** The same condition decides whether ordered evaluation is monotone. */
  lemma MonotoneExactlyWhenUninterleaved(s: set<Stamp>)
    ensures MonotoneOn(s) <==> Uninterleaved(s)
  {
    hide Evaluate, Before;
    if Uninterleaved(s) {
      forall spec: Spec, a: seq<Record>, b: seq<Record> | spec.kind.TemporalOrdered? && Elements(a) <= Elements(b) && StampsOf(Elements(b)) <= s
                          && Evaluate(spec, a).satisfied
        ensures Evaluate(spec, b).satisfied
      {
        StampsInAreFewer(spec.rules, Elements(b));
        FewerAreUninterleaved(StampsIn(spec.rules, Elements(b)), s);
        EvaluateIsMonotone(spec, a, b);
      }
    } else {
      var a, b, c :| a in s && b in s && c in s && a.1 == c.1 && Before(a, b) && Before(b, c) && b.1 != a.1;
      assert "p" != "q";
      GreedyMissesAround("p", "q", a, b, c);
    }
  }

  /** An instance: event `e` at times 1 and 3, event `f` at time 2. */
  lemma GreedyMissesWithTwoTimes(a: string, b: string, e: string, f: string)
    requires a != b && e != f
    ensures var records := [Record(a, e, 1, ""), Record(a, f, 2, ""), Record(b, e, 3, "")];
            && Choice([a, b], KeysOf(records), 0, {}, [1, 2])
            && !Evaluate(Spec(TemporalOrdered, [a, b], 60, 2), records).satisfied
  {
    hide Evaluate;
    GreedyMissesAround(a, b, (1, e), (2, f), (3, e));
    var records := [Record(a, e, 1, ""), Record(a, f, 2, ""), Record(b, e, 3, "")];
    assert records == Around(a, b, (1, e), (2, f), (3, e));
    assert KeysOf(records)[1] == Key(2, f, a) && KeysOf(records)[2] == Key(3, e, b);
  }

  // ----- only the set of records matters -----

  /** A sorted list with the repetitions of each key dropped. */
  function Dedup(keys: seq<Key>): (d: seq<Key>)
    ensures forall k :: k in d <==> k in keys
  {
    if |keys| < 2 then keys
    else
      assert keys == [keys[0]] + keys[1..];
      if keys[0] == keys[1] then Dedup(keys[1..]) else [keys[0]] + Dedup(keys[1..])
  }

  ghost predicate Increasing(keys: seq<Key>) {
    forall i, j :: 0 <= i < j < |keys| ==> KeyLess(keys[i], keys[j])
  }

  lemma {:induction false} DedupIncreases(keys: seq<Key>)
    requires Sorted(keys)
    ensures Increasing(Dedup(keys))
  {
    hide KeyLess;
    if |keys| >= 2 {
      DedupIncreases(keys[1..]);
      if keys[0] != keys[1] {
        var d := Dedup(keys[1..]);
        forall k | k in d
          ensures KeyLess(keys[0], k)
        {
          AboveFirst(keys, k);
        }
        assert forall j :: 0 <= j < |d| ==> d[j] in d;
      }
    }
  }

  lemma AboveFirst(keys: seq<Key>, k: Key)
    requires Sorted(keys) && |keys| >= 2 && keys[0] != keys[1] && k in keys[1..]
    ensures KeyLess(keys[0], k)
  {
    hide KeyLess;
    var i :| 1 <= i < |keys| && keys[i] == k;
    assert !KeyLess(keys[1], keys[0]);
    KeyLessIsTotal(keys[0], keys[1]);
    if keys[1] != keys[i] {
      assert !KeyLess(keys[i], keys[1]);
      KeyLessIsTotal(keys[1], keys[i]);
      KeyLessIsTransitive(keys[0], keys[1], keys[i]);
    }
  }

  lemma {:induction false} IncreasingIsUnique(a: seq<Key>, b: seq<Key>)
    requires Increasing(a) && Increasing(b) && forall k :: k in a <==> k in b
    ensures a == b
  {
    hide KeyLess;
    if a != [] {
      assert a[0] in b;
      SameFirst(a, b);
      TailOf(a);
      TailOf(b);
      IncreasingIsUnique(a[1..], b[1..]);
      assert a == [a[0]] + a[1..] && b == [b[0]] + b[1..];
    } else if b != [] {
      FirstIsIn(b);
      assert false;
    }
  }

  lemma FirstIsIn(a: seq<Key>)
    requires a != []
    ensures exists k :: k in a
  {
    assert a[0] in a;
  }

  lemma SameFirst(a: seq<Key>, b: seq<Key>)
    requires Increasing(a) && Increasing(b) && a != [] && b != [] && forall k :: k in a <==> k in b
    ensures a[0] == b[0]
  {
    hide KeyLess;
    assert a[0] in b && b[0] in a;
    if a[0] != b[0] {
      KeyLessIsAsymmetric(a[0], b[0]);
    }
  }

  lemma TailOf(a: seq<Key>)
    requires Increasing(a) && a != []
    ensures Increasing(a[1..]) && forall k :: k in a[1..] <==> k in a && k != a[0]
  {
    hide KeyLess;
    assert a == [a[0]] + a[1..];
    forall k | k in a[1..]
      ensures k != a[0]
    {
      var i :| 1 <= i < |a| && a[i] == k;
      KeyLessIsAsymmetric(a[0], a[i]);
    }
  }

  lemma {:induction false} UniqueIdsOfDedup(keys: seq<Key>, seen: set<string>)
    ensures UniqueIds(keys, seen) == UniqueIds(Dedup(keys), seen)
  {
    if |keys| >= 2 {
      var e := keys[0].event;
      UniqueIdsOfDedup(keys[1..], seen);
      UniqueIdsOfDedup(keys[1..], seen + {e});
      if keys[0] == keys[1] {
        assert seen + {e} + {e} == seen + {e};
      }
    }
  }

  /** The ordered matcher on the rest of the list. */
  function Take(rules: seq<string>, keys: seq<Key>, used: set<string>): (r: Option<seq<string>>)
    decreases |keys|
  {
    if rules == [] then Some([])
    else if keys == [] then None
    else if keys[0].rule == rules[0] && keys[0].event !in used then
      match Take(rules[1..], keys[1..], used + {keys[0].event})
      case None => None
      case Some(ids) => Some([keys[0].event] + ids)
    else Take(rules, keys[1..], used)
  }

  lemma {:induction false} TakeOfDedup(rules: seq<string>, keys: seq<Key>, used: set<string>)
    ensures Take(rules, keys, used) == Take(rules, Dedup(keys), used)
    decreases |keys|
  {
    if rules != [] && |keys| >= 2 {
      TakeOfDedup(rules, keys[1..], used);
      if keys[0].rule == rules[0] && keys[0].event !in used {
        TakeOfDedup(rules[1..], keys[1..], used + {keys[0].event});
      }
    }
  }

  function EventsTaken(keys: seq<Key>, picks: Option<seq<nat>>): (r: Option<seq<string>>)
    requires picks.Some? ==> forall k :: 0 <= k < |picks.value| ==> picks.value[k] < |keys|
  {
    if picks.None? then None else Some(EventsAt(keys, picks.value))
  }

  lemma GreedySkips(rules: seq<string>, keys: seq<Key>, from: nat, used: set<string>)
    requires rules != [] && from < |keys| && (keys[from].rule != rules[0] || keys[from].event in used)
    ensures Greedy(rules, keys, from, used) == Greedy(rules, keys, from + 1, used)
  {
  }

  lemma {:induction false} GreedyTakes(rules: seq<string>, keys: seq<Key>, from: nat, used: set<string>)
    requires from <= |keys|
    ensures EventsTaken(keys, Greedy(rules, keys, from, used)) == Take(rules, keys[from..], used)
    decreases |keys| - from
  {
    if rules == [] {
      assert EventsAt(keys, []) == [];
    } else if from < |keys| {
      var key := keys[from];
      assert keys[from..][0] == key && keys[from..][1..] == keys[from + 1..];
      if key.rule == rules[0] && key.event !in used {
        GreedyTakes(rules[1..], keys, from + 1, used + {key.event});
        var rest := Greedy(rules[1..], keys, from + 1, used + {key.event});
        if rest.Some? {
          assert EventsAt(keys, [from] + rest.value) == [key.event] + EventsAt(keys, rest.value);
        }
      } else {
        GreedySkips(rules, keys, from, used);
        GreedyTakes(rules, keys, from + 1, used);
      }
    }
  }

  /** The backtracking matcher, `rest` being what is left to try for rules[0]. */
  function Try(rules: seq<string>, all: seq<Key>, rest: seq<Key>, used: set<string>): (r: Option<seq<string>>)
    decreases |rules|, |rest|
  {
    if rules == [] then Some([])
    else if rest == [] then None
    else if rest[0].rule == rules[0] && rest[0].event !in used then
      match Try(rules[1..], all, all, used + {rest[0].event})
      case Some(ids) => Some([rest[0].event] + ids)
      case None => Try(rules, all, rest[1..], used)
    else Try(rules, all, rest[1..], used)
  }

  lemma {:induction false} TryOfDedup(rules: seq<string>, all: seq<Key>, rest: seq<Key>, used: set<string>)
    ensures Try(rules, all, rest, used) == Try(rules, Dedup(all), Dedup(rest), used)
    decreases |rules|, |rest|
  {
    if rules != [] && rest != [] {
      if rest[0].rule == rules[0] && rest[0].event !in used {
        TryOfDedup(rules[1..], all, all, used + {rest[0].event});
      }
      TryOfDedup(rules, all, rest[1..], used);
    }
  }

  lemma {:induction false} SearchTries(rules: seq<string>, keys: seq<Key>, used: set<string>, from: nat)
    requires from <= |keys|
    ensures Search(rules, keys, used, from) == Try(rules, keys, keys[from..], used)
    decreases |rules|, |keys| - from
  {
    if rules != [] && from < |keys| {
      var key := keys[from];
      assert keys[from..][0] == key && keys[from..][1..] == keys[from + 1..];
      if key.rule == rules[0] && key.event !in used {
        SearchTries(rules[1..], keys, used + {key.event}, 0);
        assert keys[0..] == keys;
      }
      SearchTries(rules, keys, used, from + 1);
    }
  }

  /** Matching does not see repetitions. */
  lemma MatchOfDedup(rules: seq<string>, keys: seq<Key>, ordered: bool)
    ensures Match(rules, keys, ordered) == Match(rules, Dedup(keys), ordered)
  {
    hide Dedup, Greedy, Search, Take, Try;
    var d := Dedup(keys);
    assert keys[0..] == keys && d[0..] == d;
    if ordered {
      GreedyTakes(rules, keys, 0, {});
      GreedyTakes(rules, d, 0, {});
      TakeOfDedup(rules, keys, {});
    } else {
      SearchTries(rules, keys, {}, 0);
      SearchTries(rules, d, {}, 0);
      TryOfDedup(rules, keys, keys, {});
    }
  }

  lemma SameDedup(rules: seq<string>, a: seq<Record>, b: seq<Record>)
    requires Elements(a) == Elements(b)
    ensures Dedup(KeysOf(Sort(Allowed(rules, a)))) == Dedup(KeysOf(Sort(Allowed(rules, b))))
    ensures ValuesOf(Sort(Allowed(rules, a))) == ValuesOf(Sort(Allowed(rules, b)))
  {
    hide Dedup, KeyLess, Sort, Allowed;
    var x, y := Sort(Allowed(rules, a)), Sort(Allowed(rules, b));
    SortSorts(Allowed(rules, a));
    SortSorts(Allowed(rules, b));
    SortedElements(rules, a);
    SortedElements(rules, b);
    assert forall r :: r in a <==> r in Elements(a);
    assert forall r :: r in b <==> r in Elements(b);
    SameKeys(x, y);
    DedupIncreases(KeysOf(x));
    DedupIncreases(KeysOf(y));
    IncreasingIsUnique(Dedup(KeysOf(x)), Dedup(KeysOf(y)));
  }

  lemma SameKeys(x: seq<Record>, y: seq<Record>)
    requires forall r :: r in x <==> r in y
    ensures forall k :: k in KeysOf(x) <==> k in KeysOf(y)
  {
    forall k | k in KeysOf(x)
      ensures k in KeysOf(y)
    {
      var i :| 0 <= i < |x| && KeyOf(x[i]) == k;
      assert KeysOf(y)[IndexOf(x[i], y)] == k;
    }
    forall k | k in KeysOf(y)
      ensures k in KeysOf(x)
    {
      var i :| 0 <= i < |y| && KeyOf(y[i]) == k;
      assert KeysOf(x)[IndexOf(y[i], x)] == k;
    }
  }

  /** Neither order nor repetitions of the records matter, to the verdict, the counts or the evidence, for any rule type. */
  lemma EvaluateDependsOnTheSet(spec: Spec, a: seq<Record>, b: seq<Record>)
    requires Elements(a) == Elements(b)
    ensures Evaluate(spec, a) == Evaluate(spec, b)
  {
    hide Dedup, Sort, Allowed, UniqueIds, Match, KeysOf, ValuesOf;
    var x, y := KeysOf(Sort(Allowed(spec.rules, a))), KeysOf(Sort(Allowed(spec.rules, b)));
    SameDedup(spec.rules, a, b);
    UniqueIdsOfDedup(x, {});
    UniqueIdsOfDedup(y, {});
    MatchOfDedup(spec.rules, x, spec.kind.TemporalOrdered?);
    MatchOfDedup(spec.rules, y, spec.kind.TemporalOrdered?);
  }
}
