/**
 Evaluation of a compiled Sigma rule against one event: predicates, selections
 and the condition over them. Field lookup and value matching are parameters.
 */
module SigmaSelections {
  import opened Text
  import opened Grammar = BooleanGrammar
  import opened Sigma
  import opened SigmaQuantifiers
  import opened SigmaMeaning

  datatype FieldPredicate = FieldPredicate(field: string, modifier: string, all: bool, values: seq<string>)

  /** A selection is a list of alternatives, each a list of predicates. */
  type Selection = seq<seq<FieldPredicate>>

  /** The values of a field in the event, and the match of one value under a modifier. */
  datatype Reading = Reading(values: string -> seq<string>, matches: (string, string, string) -> bool)

  ghost predicate MatchesSome(e: Reading, p: FieldPredicate, expected: string) {
    exists actual :: actual in e.values(p.field) && e.matches(actual, expected, p.modifier)
  }

  /** An absent field never matches; `all` asks for every expected value. */
  ghost predicate PredicateHolds(e: Reading, p: FieldPredicate) {
    && e.values(p.field) != []
    && if p.all then forall x :: x in p.values ==> MatchesSome(e, p, x)
       else exists x :: x in p.values && MatchesSome(e, p, x)
  }

  ghost predicate AlternativeHolds(e: Reading, a: seq<FieldPredicate>) {
    forall p :: p in a ==> PredicateHolds(e, p)
  }

  ghost predicate SelectionHolds(e: Reading, s: Selection) {
    exists a :: a in s && AlternativeHolds(e, a)
  }

  function FieldsOf(a: seq<FieldPredicate>): seq<string> {
    seq(|a|, i requires 0 <= i < |a| => a[i].field)
  }

  /** The fields of the first alternative that holds. */
  ghost function MatchedFields(e: Reading, s: Selection): seq<string> {
    if s == [] then []
    else if AlternativeHolds(e, s[0]) then FieldsOf(s[0])
    else MatchedFields(e, s[1..])
  }

  method MatchExpected(e: Reading, p: FieldPredicate, expected: string) returns (r: bool)
    ensures r == MatchesSome(e, p, expected)
  {
    var actuals := e.values(p.field);
    for i := 0 to |actuals|
      invariant forall k :: 0 <= k < i ==> !e.matches(actuals[k], expected, p.modifier)
    {
      if e.matches(actuals[i], expected, p.modifier) {
        return true;
      }
    }
    return false;
  }

  method EvaluatePredicate(e: Reading, p: FieldPredicate) returns (r: bool)
    ensures r == PredicateHolds(e, p)
  {
    if |e.values(p.field)| == 0 {
      return false;
    }
    for i := 0 to |p.values|
      invariant p.all ==> forall k :: 0 <= k < i ==> MatchesSome(e, p, p.values[k])
      invariant !p.all ==> forall k :: 0 <= k < i ==> !MatchesSome(e, p, p.values[k])
    {
      var found := MatchExpected(e, p, p.values[i]);
      if p.all && !found {
        return false;
      }
      if !p.all && found {
        return true;
      }
    }
    return p.all;
  }

  /** Reports the fields of the first alternative that matches. */
  method EvaluateSelection(e: Reading, s: Selection) returns (matched: bool, fields: seq<string>)
    ensures matched == SelectionHolds(e, s)
    ensures fields == MatchedFields(e, s)
    ensures matched ==> exists i :: 0 <= i < |s| && AlternativeHolds(e, s[i]) && fields == FieldsOf(s[i])
                                    && forall k :: 0 <= k < i ==> !AlternativeHolds(e, s[k])
  {
    hide AlternativeHolds;
    assert s[0..] == s;
    for i := 0 to |s|
      invariant forall k :: 0 <= k < i ==> !AlternativeHolds(e, s[k])
      invariant MatchedFields(e, s) == MatchedFields(e, s[i..])
    {
      assert s[i..][1..] == s[i + 1..];
      var holds, found := EvaluateAlternative(e, s[i]);
      if holds {
        assert s[i] in s;
        return true, found;
      }
    }
    return false, [];
  }

  /** Tests the predicates in turn, collecting their fields, up to the first that fails. */
  method EvaluateAlternative(e: Reading, alternative: seq<FieldPredicate>) returns (matched: bool, fields: seq<string>)
    ensures matched == AlternativeHolds(e, alternative)
    ensures matched ==> fields == FieldsOf(alternative)
  {
    fields := [];
    for j := 0 to |alternative|
      invariant fields == FieldsOf(alternative[..j])
      invariant forall k :: 0 <= k < j ==> PredicateHolds(e, alternative[k])
    {
      var holds := EvaluatePredicate(e, alternative[j]);
      if !holds {
        return false, fields;
      }
      fields := fields + [alternative[j].field];
    }
    assert alternative[..|alternative|] == alternative;
    return true, fields;
  }

  /** The selections that hold. */
  ghost function Holding(e: Reading, selections: map<string, Selection>): set<string> {
    set n | n in selections && SelectionHolds(e, selections[n])
  }

  /** A field that a holding selection has matched on. */
  ghost predicate Matched(e: Reading, selections: map<string, Selection>, among: set<string>, field: string) {
    exists n :: n in among && n in Holding(e, selections) && field in MatchedFields(e, selections[n])
  }

  method Sorted(values: set<string>) returns (sorted: seq<string>)
    ensures StrictlySorted(sorted) && forall x :: x in sorted <==> x in values
  {
    var rest := values;
    sorted := [];
    while rest != {}
      invariant rest <= values && StrictlySorted(sorted)
      invariant forall x :: x in sorted <==> x in values && x !in rest
    {
      var x :| x in rest;
      rest := rest - {x};
      InsertUniqueKeepsSorted(x, sorted);
      sorted := InsertUnique(x, sorted);
    }
  }

  /**
   The rule matches exactly when its condition holds of the selections that
   hold, and then reports the fields of all of these, sorted; a correlation rule
   never matches a single event.
   */
  method EvaluateRule(e: Reading, selections: map<string, Selection>, condition: Node<string>, correlation: bool)
    returns (matched: bool, fields: seq<string>)
    ensures matched == (!correlation && Eval(condition, Holding(e, selections)))
    ensures matched ==> StrictlySorted(fields) && forall f :: f in fields <==> Matched(e, selections, selections.Keys, f)
    ensures !matched ==> fields == []
  {
    hide SelectionHolds, MatchedFields;
    if correlation {
      return false, [];
    }
    var results: set<string> := {};
    var matchedFields: set<string> := {};
    var rest := selections.Keys;
    while rest != {}
      invariant rest <= selections.Keys
      invariant forall n :: n in results <==> n in Holding(e, selections) && n !in rest
      invariant forall f :: f in matchedFields <==> Matched(e, selections, selections.Keys - rest, f)
    {
      var name :| name in rest;
      ghost var before := selections.Keys - rest;
      rest := rest - {name};
      assert selections.Keys - rest == before + {name};
      var holds, found := EvaluateSelection(e, selections[name]);
      if holds {
        results := results + {name};
        matchedFields := matchedFields + (set f | f in found);
      }
    }
    assert results == Holding(e, selections);
    assert selections.Keys - rest == selections.Keys;
    if !Eval(condition, results) {
      return false, [];
    }
    fields := Sorted(matchedFields);
    return true, fields;
  }

  /**
   From the text of a condition to the verdict on an event: the rule compiles
   exactly when the text reads as a sentence whose quantifiers match something,
   and it matches exactly when that sentence, quantifiers included, is true of
   the selections that hold.
   */
  method MatchCondition(e: Reading, selections: map<string, Selection>, names: seq<string>, condition: string)
    returns (compiled: bool, matched: bool)
    requires NameSet(names) == selections.Keys && AllReadable(names)
    ensures compiled == exists o :: Reads(names, condition, o)
    ensures forall o :: Reads(names, condition, o) ==> (matched <==> Meaning(OrNode(o), names, Holding(e, selections)))
  {
    hide ExpandText, Holding, Reads, Meaning;
    ExpansionPreservesMeaning(names, condition);
    var expansion := ExpandQuantifiers(names, condition);
    if expansion.NoSelection? {
      return false, false;
    }
    var parsed := ParseCondition(Tokenize(expansion.text), NameSet(names));
    if parsed.Failure? {
      return false, false;
    }
    var verdict, _ := EvaluateRule(e, selections, parsed.node, false);
    return true, verdict;
  }
}
