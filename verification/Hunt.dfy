/**
 Hunt queries: validation of the expression tree and its compilation into a SQL
 clause with positional arguments.

 The clause is a token list; a leaf names the field, the SQL test on it and the
 number of its placeholders, and is evaluated on a row as the database would.
 Field lookup and integer parsing are parameters.
 */
module Hunt {
  import opened Options
  import opened Text
  import opened Grammar = BooleanGrammar

  datatype Predicate = Predicate(field: string, comparator: string, value: string, values: seq<string>)

  datatype Expression = Expression(
    all: seq<Expression>, any: seq<Expression>, negated: Option<Expression>, test: Option<Predicate>)

  datatype FieldKind = StringField | TextField | NumberField

  datatype Field = Field(expression: string, kind: FieldKind)

  /** The searchable fields and the integer syntax. */
  datatype Schema = Schema(resolve: string -> Option<Field>, parseInt: string -> Option<int>)

  const MAXIMUM_DEPTH := 8
  const MAXIMUM_CHILDREN := 32
  const MAXIMUM_PREDICATES := 64
  const MAXIMUM_VALUES := 100
  const MAXIMUM_VALUE_LENGTH := 1024

  // ----- validation -----

  function Comparator(p: Predicate): string {
    Lower(Trim(p.comparator))
  }

  predicate Supports(kind: FieldKind, comparator: string) {
    || comparator == "eq" || comparator == "neq" || comparator == "exists" || comparator == "not_exists"
    || comparator == "in"
    || (kind != NumberField && (comparator == "contains" || comparator == "starts_with" || comparator == "ends_with"))
    || (kind == NumberField && (comparator == "gt" || comparator == "gte" || comparator == "lt" || comparator == "lte"))
  }

  predicate ValidValue(schema: Schema, kind: FieldKind, value: string) {
    value != "" && |value| <= MAXIMUM_VALUE_LENGTH && (kind == NumberField ==> schema.parseInt(value).Some?)
  }

  predicate ValidPredicate(schema: Schema, p: Predicate) {
    var field := schema.resolve(p.field);
    field.Some? && Supports(field.value.kind, Comparator(p)) &&
    if Comparator(p) == "exists" || Comparator(p) == "not_exists" then true
    else if Comparator(p) == "in" then
      0 < |p.values| <= MAXIMUM_VALUES && forall v :: v in p.values ==> ValidValue(schema, field.value.kind, v)
    else ValidValue(schema, field.value.kind, p.value)
  }

  function Branches(e: Expression): nat {
    (if e.all != [] then 1 else 0) + (if e.any != [] then 1 else 0)
    + (if e.negated.Some? then 1 else 0) + (if e.test.Some? then 1 else 0)
  }

  /** The children of a boolean group. */
  function Children(e: Expression): seq<Expression> {
    if e.any != [] then e.any else e.all
  }

  /** What validation promises: one branch per node, bounded depth and width, valid predicates. */
  ghost predicate WellFormed(schema: Schema, e: Expression, depth: nat)
    decreases e
  {
    && depth <= 8
    && Branches(e) == 1
    && |Children(e)| <= 32
    && (forall i :: 0 <= i < |e.all| ==> WellFormed(schema, e.all[i], depth + 1))
    && (forall i :: 0 <= i < |e.any| ==> WellFormed(schema, e.any[i], depth + 1))
    && (e.negated.Some? ==> WellFormed(schema, e.negated.value, depth + 1))
    && (e.test.Some? ==> ValidPredicate(schema, e.test.value))
  }

  /** The number of predicates in a tree. */
  function Leaves(e: Expression): nat
    decreases e, |Children(e)| + 1
  {
    if Children(e) != [] then LeavesOfFirst(e, |Children(e)|)
    else if e.negated.Some? then Leaves(e.negated.value)
    else 1
  }

  function LeavesOfFirst(e: Expression, k: nat): nat
    requires k <= |Children(e)|
    decreases e, k
  {
    if k == 0 then 0
    else LeavesOfFirst(e, k - 1) + Leaves(Children(e)[k - 1])
  }

  lemma {:induction false} LeavesGrow(e: Expression, j: nat, k: nat)
    requires j <= k <= |Children(e)|
    ensures LeavesOfFirst(e, j) <= LeavesOfFirst(e, k)
    decreases k
  {
    if j < k {
      LeavesGrow(e, j, k - 1);
    }
  }

  lemma LeavesSteps(e: Expression, k: nat)
    requires k <= |Children(e)|
    ensures LeavesOfFirst(e, k) == if k == 0 then 0 else LeavesOfFirst(e, k - 1) + Leaves(Children(e)[k - 1])
  {
  }

  class Counter {
    var value: nat

    constructor ()
      ensures value == 0
    {
      value := 0;
    }
  }

  /** Accepts exactly the well-formed trees that stay within the predicate budget, and counts their predicates. */
  method ValidateExpression(schema: Schema, e: Expression, depth: nat, count: Counter) returns (ok: bool)
    requires count.value <= MAXIMUM_PREDICATES
    modifies count
    ensures ok <==> WellFormed(schema, e, depth) && old(count.value) + Leaves(e) <= MAXIMUM_PREDICATES
    ensures ok ==> count.value == old(count.value) + Leaves(e)
    decreases e
  {
    hide LeavesOfFirst;
    if depth > MAXIMUM_DEPTH {
      return false;
    }
    if Branches(e) != 1 {
      return false;
    }
    var children := e.all;
    if |e.any| > 0 {
      children := e.any;
    }
    if |children| > 0 {
      if |children| > MAXIMUM_CHILDREN {
        return false;
      }
      LeavesSteps(e, 0);
      for i := 0 to |children|
        invariant forall j :: 0 <= j < i ==> WellFormed(schema, children[j], depth + 1)
        invariant count.value == old(count.value) + LeavesOfFirst(e, i) <= MAXIMUM_PREDICATES
      {
        LeavesSteps(e, i + 1);
        ok := ValidateExpression(schema, children[i], depth + 1, count);
        if !ok {
          LeavesGrow(e, i + 1, |children|);
          return;
        }
      }
      return true;
    }
    if e.negated.Some? {
      ok := ValidateExpression(schema, e.negated.value, depth + 1, count);
      return;
    }
    count.value := count.value + 1;
    if count.value > MAXIMUM_PREDICATES {
      return false;
    }
    return ValidPredicate(schema, e.test.value);
  }

  // ----- compilation -----

  /** The tests the compiler emits, with `lowerUTF8` around both sides where the name says so. */
  datatype SqlTest =
    | NotEmpty
    | IsEmpty
    | NumberIn
    | LowerIn
    | NumberOperator(symbol: string)
    | LowerEqual
    | LowerNotEqual
    | PositionPositive
    | LowerStartsWith
    | LowerEndsWith

  datatype SqlToken = Open | Close | AndWord | OrWord | NotWord | Test(field: Field, test: SqlTest, holes: nat)

  datatype Arg = TextArg(text: string) | NumberArg(number: int)

  datatype Compiled = Clause(tokens: seq<SqlToken>, args: seq<Arg>) | Invalid

  datatype Fragments = Fragments(parts: seq<seq<SqlToken>>, args: seq<Arg>) | NoFragments

  /** Values that failed to parse are bound as zero, as the ignored parse error leaves them. */
  function ArgOf(schema: Schema, kind: FieldKind, value: string): Arg {
    if kind == NumberField then
      var parsed := schema.parseInt(value);
      NumberArg(if parsed.Some? then parsed.value else 0)
    else TextArg(value)
  }

  function ArgsOf(schema: Schema, kind: FieldKind, values: seq<string>): (args: seq<Arg>)
    ensures |args| == |values|
  {
    seq(|values|, i requires 0 <= i < |values| => ArgOf(schema, kind, values[i]))
  }

  /** A missing entry of the operator table is the empty text. */
  function SymbolOf(comparator: string): string {
    if comparator == "eq" then "="
    else if comparator == "neq" then "!="
    else if comparator == "gt" then ">"
    else if comparator == "gte" then ">="
    else if comparator == "lt" then "<"
    else if comparator == "lte" then "<="
    else ""
  }

  function TextTest(comparator: string): Option<SqlTest> {
    if comparator == "eq" then Some(LowerEqual)
    else if comparator == "neq" then Some(LowerNotEqual)
    else if comparator == "contains" then Some(PositionPositive)
    else if comparator == "starts_with" then Some(LowerStartsWith)
    else if comparator == "ends_with" then Some(LowerEndsWith)
    else None
  }

  function CompilePredicate(schema: Schema, p: Predicate): Compiled {
    var field := schema.resolve(p.field);
    if field.None? then Invalid
    else
      var comparator := Comparator(p);
      if comparator == "exists" then Clause([Test(field.value, NotEmpty, 0)], [])
      else if comparator == "not_exists" then Clause([Test(field.value, IsEmpty, 0)], [])
      else
        var isNumber := field.value.kind == NumberField;
        var values := if comparator != "in" then [p.value] else p.values;
        var args := ArgsOf(schema, field.value.kind, values);
        if comparator == "in" then Clause([Test(field.value, if isNumber then NumberIn else LowerIn, |args|)], args)
        else if isNumber then Clause([Test(field.value, NumberOperator(SymbolOf(comparator)), 1)], args)
        else
          match TextTest(comparator)
          case Some(test) => Clause([Test(field.value, test, 1)], args)
          case None => Invalid
  }

  function Join(parts: seq<seq<SqlToken>>, op: SqlToken): seq<SqlToken> {
    if parts == [] then []
    else if |parts| == 1 then parts[0]
    else Join(parts[..|parts| - 1], op) + [op] + parts[|parts| - 1]
  }

  function GroupOperator(e: Expression): SqlToken {
    if e.any != [] then OrWord else AndWord
  }

  function Compile(schema: Schema, e: Expression): Compiled
    decreases e, |Children(e)| + 1
  {
    if Children(e) != [] then
      match CompileFirst(schema, e, |Children(e)|)
      case NoFragments => Invalid
      case Fragments(parts, args) => Clause(Join(parts, GroupOperator(e)), args)
    else if e.negated.Some? then
      match Compile(schema, e.negated.value)
      case Invalid => Invalid
      case Clause(part, args) => Clause([NotWord, Open] + part + [Close], args)
    else if e.test.None? then Invalid
    else CompilePredicate(schema, e.test.value)
  }

  function CompileFirst(schema: Schema, e: Expression, k: nat): (r: Fragments)
    requires k <= |Children(e)|
    ensures r.Fragments? ==> |r.parts| == k
    decreases e, k
  {
    if k == 0 then Fragments([], [])
    else
      match CompileFirst(schema, e, k - 1)
      case NoFragments => NoFragments
      case Fragments(parts, args) =>
        match Compile(schema, Children(e)[k - 1])
        case Invalid => NoFragments
        case Clause(part, more) => Fragments(parts + [[Open] + part + [Close]], args + more)
  }

  lemma {:induction false} CompileFirstFails(schema: Schema, e: Expression, j: nat, k: nat)
    requires j <= k <= |Children(e)| && CompileFirst(schema, e, j).NoFragments?
    ensures CompileFirst(schema, e, k).NoFragments?
    decreases k
  {
    if j < k {
      CompileFirstFails(schema, e, j, k - 1);
    }
  }

  method CompileNode(schema: Schema, e: Expression) returns (r: Compiled)
    ensures r == Compile(schema, e)
    decreases e
  {
    hide Join, CompilePredicate;
    if |e.all| > 0 || |e.any| > 0 {
      var children, operator := e.all, AndWord;
      if |e.any| > 0 {
        children, operator := e.any, OrWord;
      }
      var parts: seq<seq<SqlToken>> := [];
      var args: seq<Arg> := [];
      for i := 0 to |children|
        invariant CompileFirst(schema, e, i) == Fragments(parts, args)
      {
        var compiled := CompileNode(schema, children[i]);
        if compiled.Invalid? {
          CompileFirstFails(schema, e, i + 1, |children|);
          return Invalid;
        }
        parts := parts + [[Open] + compiled.tokens + [Close]];
        args := args + compiled.args;
      }
      return Clause(Join(parts, operator), args);
    }
    if e.negated.Some? {
      var compiled := CompileNode(schema, e.negated.value);
      if compiled.Invalid? {
        return Invalid;
      }
      return Clause([NotWord, Open] + compiled.tokens + [Close], compiled.args);
    }
    if e.test.None? {
      return Invalid;
    }
    return CompilePredicate(schema, e.test.value);
  }

  // ----- meaning -----

  function SqlLexicon(): Lexicon<SqlToken> {
    Lexicon(
      (t: SqlToken) => t.OrWord?, (t: SqlToken) => t.AndWord?, (t: SqlToken) => t.NotWord?,
      (t: SqlToken) => t.Open?, (t: SqlToken) => t.Close?, (t: SqlToken) => t.Test?)
  }

  function HolesIn(tokens: seq<SqlToken>): nat {
    if tokens == [] then 0
    else HolesIn(tokens[..|tokens| - 1]) + (if tokens[|tokens| - 1].Test? then tokens[|tokens| - 1].holes else 0)
  }

  function Holes(n: Node<SqlToken>): nat {
    match n
    case Atom(t) => if t.Test? then t.holes else 0
    case Not(c) => Holes(c)
    case And(l, r) => Holes(l) + Holes(r)
    case Or(l, r) => Holes(l) + Holes(r)
  }

  /** The values of a row's fields, and the database's `lowerUTF8`. */
  datatype Row = Row(present: Field -> bool, text: Field -> string, number: Field -> int, lower: string -> string)

  /** `position`: one more than the first index of `needle`, or zero. */
  function Position(haystack: string, needle: string): nat {
    if needle <= haystack then 1
    else if haystack == "" then 0
    else
      var later := Position(haystack[1..], needle);
      if later == 0 then 0 else later + 1
  }

  predicate EndsWith(s: string, tail: string) {
    |tail| <= |s| && s[|s| - |tail|..] == tail
  }

  predicate HoldsBetween(symbol: string, a: int, b: int) {
    if symbol == "=" then a == b
    else if symbol == "!=" then a != b
    else if symbol == ">" then a > b
    else if symbol == ">=" then a >= b
    else if symbol == "<" then a < b
    else symbol == "<=" && a <= b
  }

  /** A test with one text argument. */
  predicate TextHolds(test: SqlTest, value: string, arg: string) {
    match test
    case LowerEqual => value == arg
    case LowerNotEqual => value != arg
    case PositionPositive => Position(value, arg) > 0
    case LowerStartsWith => arg <= value
    case LowerEndsWith => EndsWith(value, arg)
    case _ => false
  }

  /** A leaf of the clause on a row, with its arguments. */
  predicate LeafHolds(t: SqlToken, args: seq<Arg>, row: Row) {
    t.Test? &&
    match t.test
    case NotEmpty => row.present(t.field)
    case IsEmpty => !row.present(t.field)
    case NumberIn => NumberArg(row.number(t.field)) in args
    case LowerIn => exists i :: 0 <= i < |args| && args[i].TextArg? && row.lower(args[i].text) == row.lower(row.text(t.field))
    case NumberOperator(symbol) => |args| == 1 && args[0].NumberArg? && HoldsBetween(symbol, row.number(t.field), args[0].number)
    case test => |args| == 1 && args[0].TextArg? && TextHolds(test, row.lower(row.text(t.field)), row.lower(args[0].text))
  }

  /** A clause on a row, its arguments bound to placeholders from left to right. */
  predicate EvalSql(n: Node<SqlToken>, args: seq<Arg>, row: Row)
    requires |args| == Holes(n)
  {
    match n
    case Atom(t) => LeafHolds(t, args, row)
    case Not(c) => !EvalSql(c, args, row)
    case And(l, r) => EvalSql(l, args[..Holes(l)], row) && EvalSql(r, args[Holes(l)..], row)
    case Or(l, r) => EvalSql(l, args[..Holes(l)], row) || EvalSql(r, args[Holes(l)..], row)
  }

  ghost predicate Contains(s: string, part: string) {
    exists i :: 0 <= i <= |s| && part <= s[i..]
  }

  /** A predicate on a row, in terms of its own comparator and values: numbers are compared, texts regardless of case. */
  ghost predicate PredicateMeaning(schema: Schema, p: Predicate, row: Row) {
    var field, comparator := schema.resolve(p.field), Comparator(p);
    field.Some? &&
    if comparator == "exists" then row.present(field.value)
    else if comparator == "not_exists" then !row.present(field.value)
    else if field.value.kind == NumberField then
      var x := row.number(field.value);
      if comparator == "in" then exists v :: v in p.values && schema.parseInt(v) == Some(x)
      else schema.parseInt(p.value).Some? && NumberMeaning(comparator, x, schema.parseInt(p.value).value)
    else
      var x := row.lower(row.text(field.value));
      if comparator == "in" then exists v :: v in p.values && row.lower(v) == x
      else TextMeaning(comparator, x, row.lower(p.value))
  }

  predicate NumberMeaning(comparator: string, x: int, n: int) {
    match comparator
    case "eq" => x == n
    case "neq" => x != n
    case "gt" => x > n
    case "gte" => x >= n
    case "lt" => x < n
    case "lte" => x <= n
    case _ => false
  }

  ghost predicate TextMeaning(comparator: string, x: string, v: string) {
    match comparator
    case "eq" => x == v
    case "neq" => x != v
    case "contains" => Contains(x, v)
    case "starts_with" => exists rest :: x == v + rest
    case "ends_with" => exists front :: x == front + v
    case _ => false
  }

  /** The boolean meaning of the tree. */
  ghost predicate Meaning(schema: Schema, e: Expression, row: Row)
    decreases e
  {
    if e.any != [] then exists i :: 0 <= i < |e.any| && Meaning(schema, e.any[i], row)
    else if e.all != [] then forall i :: 0 <= i < |e.all| ==> Meaning(schema, e.all[i], row)
    else if e.negated.Some? then !Meaning(schema, e.negated.value, row)
    else e.test.Some? && PredicateMeaning(schema, e.test.value, row)
  }

  // ----- the derivation of the emitted clause -----

  /** `o` derives the clause: valid, as many arguments as placeholders, and evaluating to `meaning`. */
  ghost predicate DerivesOr(o: OrTree<SqlToken>, tokens: seq<SqlToken>, args: seq<Arg>, row: Row, meaning: bool) {
    && ValidOr(SqlLexicon(), o) && YieldOr(o) == tokens
    && |args| == Holes(OrNode(o)) && EvalSql(OrNode(o), args, row) == meaning
  }

  ghost predicate DerivesAnd(a: AndTree<SqlToken>, tokens: seq<SqlToken>, args: seq<Arg>, row: Row, meaning: bool) {
    && ValidAnd(SqlLexicon(), a) && YieldAnd(a) == tokens
    && |args| == Holes(AndNode(a)) && EvalSql(AndNode(a), args, row) == meaning
  }

  ghost predicate DerivesUnary(u: UnaryTree<SqlToken>, tokens: seq<SqlToken>, args: seq<Arg>, row: Row, meaning: bool) {
    && ValidUnary(SqlLexicon(), u) && YieldUnary(u) == tokens
    && |args| == Holes(UnaryNode(u)) && EvalSql(UnaryNode(u), args, row) == meaning
  }

  lemma DerivesGroup(o: OrTree<SqlToken>, tokens: seq<SqlToken>, args: seq<Arg>, row: Row, meaning: bool)
    requires DerivesOr(o, tokens, args, row, meaning)
    ensures DerivesUnary(Group(Open, o, Close), [Open] + tokens + [Close], args, row, meaning)
  {
  }

  lemma DerivesNot(u: UnaryTree<SqlToken>, tokens: seq<SqlToken>, args: seq<Arg>, row: Row, meaning: bool)
    requires DerivesUnary(u, tokens, args, row, meaning)
    ensures DerivesUnary(Negation(NotWord, u), [NotWord] + tokens, args, row, !meaning)
  {
  }

  lemma DerivesAndOne(u: UnaryTree<SqlToken>, tokens: seq<SqlToken>, args: seq<Arg>, row: Row, meaning: bool)
    requires DerivesUnary(u, tokens, args, row, meaning)
    ensures DerivesAnd(AndOne(u), tokens, args, row, meaning)
  {
  }

  lemma DerivesOrOne(a: AndTree<SqlToken>, tokens: seq<SqlToken>, args: seq<Arg>, row: Row, meaning: bool)
    requires DerivesAnd(a, tokens, args, row, meaning)
    ensures DerivesOr(OrOne(a), tokens, args, row, meaning)
  {
  }

  lemma DerivesAndMore(
      a: AndTree<SqlToken>, ta: seq<SqlToken>, aa: seq<Arg>, ma: bool,
      u: UnaryTree<SqlToken>, tu: seq<SqlToken>, au: seq<Arg>, mu: bool, row: Row)
    requires DerivesAnd(a, ta, aa, row, ma) && DerivesUnary(u, tu, au, row, mu)
    ensures DerivesAnd(AndMore(a, AndWord, u), ta + [AndWord] + tu, aa + au, row, ma && mu)
  {
    assert (aa + au)[..|aa|] == aa && (aa + au)[|aa|..] == au;
  }

  lemma DerivesOrMore(
      o: OrTree<SqlToken>, to: seq<SqlToken>, ao: seq<Arg>, mo: bool,
      a: AndTree<SqlToken>, ta: seq<SqlToken>, aa: seq<Arg>, ma: bool, row: Row)
    requires DerivesOr(o, to, ao, row, mo) && DerivesAnd(a, ta, aa, row, ma)
    ensures DerivesOr(OrMore(o, OrWord, a), to + [OrWord] + ta, ao + aa, row, mo || ma)
  {
    assert (ao + aa)[..|ao|] == ao && (ao + aa)[|ao|..] == aa;
  }

  lemma {:induction false} PositionIsContains(s: string, part: string)
    ensures Position(s, part) > 0 <==> Contains(s, part)
  {
    assert s[0..] == s;
    if s != "" && !(part <= s) {
      PositionIsContains(s[1..], part);
      if i :| 0 <= i <= |s| && part <= s[i..] {
        assert s[1..][i - 1..] == s[i..];
      }
      if i :| 0 <= i <= |s[1..]| && part <= s[1..][i..] {
        assert s[1..][i..] == s[i + 1..];
      }
    }
  }

  lemma TextTestIs(comparator: string, x: string, v: string)
    requires TextTest(comparator).Some?
    ensures TextHolds(TextTest(comparator).value, x, v) <==> TextMeaning(comparator, x, v)
  {
    PositionIsContains(x, v);
    if v <= x {
      assert x == v + x[|v|..];
    }
    if EndsWith(x, v) {
      assert x == x[..|x| - |v|] + v;
    }
  }

  lemma NumberTestIs(comparator: string, x: int, n: int)
    ensures HoldsBetween(SymbolOf(comparator), x, n) <==> NumberMeaning(comparator, x, n)
  {
  }

  lemma InIs(schema: Schema, p: Predicate, row: Row)
    requires ValidPredicate(schema, p) && Comparator(p) == "in"
    ensures var c := CompilePredicate(schema, p);
            c.Clause? && |c.args| == |p.values| && (LeafHolds(c.tokens[0], c.args, row) <==> PredicateMeaning(schema, p, row))
  {
    var c, field := CompilePredicate(schema, p), schema.resolve(p.field).value;
    assert forall i :: 0 <= i < |p.values| ==> p.values[i] in p.values && c.args[i] == ArgOf(schema, field.kind, p.values[i]);
    if field.kind == NumberField {
      forall v | v in p.values && schema.parseInt(v) == Some(row.number(field))
        ensures NumberArg(row.number(field)) in c.args
      {
        var i :| 0 <= i < |p.values| && p.values[i] == v;
        assert c.args[i] == NumberArg(row.number(field));
      }
    } else {
      forall v | v in p.values && row.lower(v) == row.lower(row.text(field))
        ensures LeafHolds(c.tokens[0], c.args, row)
      {
        var i :| 0 <= i < |p.values| && p.values[i] == v;
        assert c.args[i] == TextArg(v);
      }
    }
  }

  lemma TestHolds(schema: Schema, p: Predicate, row: Row)
    requires ValidPredicate(schema, p)
    ensures var c := CompilePredicate(schema, p);
            && c.Clause? && |c.tokens| == 1 && c.tokens[0].Test? && |c.args| == c.tokens[0].holes
            && (LeafHolds(c.tokens[0], c.args, row) <==> PredicateMeaning(schema, p, row))
  {
    hide TextMeaning, NumberMeaning, TextHolds, HoldsBetween;
    var comparator, kind := Comparator(p), schema.resolve(p.field).value.kind;
    if comparator == "in" {
      InIs(schema, p, row);
    } else if comparator != "exists" && comparator != "not_exists" {
      var field := schema.resolve(p.field).value;
      if kind == NumberField {
        NumberTestIs(comparator, row.number(field), schema.parseInt(p.value).value);
      } else {
        TextTestIs(comparator, row.lower(row.text(field)), row.lower(p.value));
      }
    }
  }

  /** The compiled clause has a derivation that evaluates to the meaning. */
  ghost predicate Means(tokens: seq<SqlToken>, args: seq<Arg>, row: Row, meaning: bool) {
    exists o :: DerivesOr(o, tokens, args, row, meaning)
  }

  ghost predicate GroupMeans(tokens: seq<SqlToken>, args: seq<Arg>, row: Row, meaning: bool) {
    exists u :: DerivesUnary(u, tokens, args, row, meaning)
  }

  ghost predicate CompilesTo(schema: Schema, e: Expression, row: Row) {
    exists tokens, args :: Compile(schema, e) == Clause(tokens, args) && Means(tokens, args, row, Meaning(schema, e, row))
  }

  lemma PredicateIs(schema: Schema, e: Expression, row: Row)
    requires Branches(e) == 1 && e.test.Some? && ValidPredicate(schema, e.test.value)
    ensures CompilesTo(schema, e, row)
  {
    hide DerivesOr, DerivesAnd, PredicateMeaning, LeafHolds, CompilePredicate, ValidPredicate;
    TestHolds(schema, e.test.value, row);
    var c, meaning := CompilePredicate(schema, e.test.value), Meaning(schema, e, row);
    var u: UnaryTree<SqlToken> := Leaf(c.tokens[0]);
    assert c.tokens == [c.tokens[0]];
    assert DerivesUnary(u, c.tokens, c.args, row, meaning);
    DerivesAndOne(u, c.tokens, c.args, row, meaning);
    DerivesOrOne(AndOne(u), c.tokens, c.args, row, meaning);
    assert Means(c.tokens, c.args, row, meaning);
  }

  /** A clause in parentheses, possibly negated. */
  lemma GroupOf(tokens: seq<SqlToken>, args: seq<Arg>, row: Row, meaning: bool)
    requires Means(tokens, args, row, meaning)
    ensures GroupMeans([Open] + tokens + [Close], args, row, meaning)
    ensures Means([NotWord, Open] + tokens + [Close], args, row, !meaning)
  {
    hide DerivesOr, DerivesAnd, DerivesUnary;
    var o :| DerivesOr(o, tokens, args, row, meaning);
    var group, grouped := Group(Open, o, Close), [Open] + tokens + [Close];
    DerivesGroup(o, tokens, args, row, meaning);
    DerivesNot(group, grouped, args, row, meaning);
    assert [NotWord] + grouped == [NotWord, Open] + tokens + [Close];
    DerivesAndOne(Negation(NotWord, group), [NotWord] + grouped, args, row, !meaning);
    DerivesOrOne(AndOne(Negation(NotWord, group)), [NotWord] + grouped, args, row, !meaning);
  }

  lemma {:induction false} TreeIs(schema: Schema, e: Expression, depth: nat, row: Row)
    requires WellFormed(schema, e, depth)
    ensures CompilesTo(schema, e, row)
    decreases e, |Children(e)| + 2
  {
    hide Means, DerivesOr, Join, ValidPredicate, AnyMeans, AllMeans;
    if e.any != [] {
      AnyTreeIs(schema, e, |e.any|, depth, row);
      AllOfAny(schema, e, row);
    } else if e.all != [] {
      AllTreeIs(schema, e, |e.all|, depth, row);
      AllOfAll(schema, e, row);
    } else if e.negated.Some? {
      TreeIs(schema, e.negated.value, depth + 1, row);
      var c := Compile(schema, e.negated.value);
      GroupOf(c.tokens, c.args, row, Meaning(schema, e.negated.value, row));
    } else {
      PredicateIs(schema, e, row);
    }
  }

  lemma CompileFirstStep(schema: Schema, e: Expression, k: nat, op: SqlToken)
    requires 0 < k <= |Children(e)|
    requires CompileFirst(schema, e, k - 1).Fragments? && Compile(schema, Children(e)[k - 1]).Clause?
    ensures var f, c := CompileFirst(schema, e, k - 1), Compile(schema, Children(e)[k - 1]);
            var part := [Open] + c.tokens + [Close];
            && CompileFirst(schema, e, k) == Fragments(f.parts + [part], f.args + c.args)
            && Join(f.parts + [part], op) == if k == 1 then part else Join(f.parts, op) + [op] + part
  {
    var f, c := CompileFirst(schema, e, k - 1), Compile(schema, Children(e)[k - 1]);
    assert (f.parts + [[Open] + c.tokens + [Close]])[..|f.parts|] == f.parts;
  }

  /** The group around the k-th child of `any` or `all`. */
  lemma {:induction false} ChildIs(schema: Schema, e: Expression, k: nat, depth: nat, row: Row)
    requires WellFormed(schema, e, depth) && 0 < k <= |Children(e)|
    ensures var c := Compile(schema, Children(e)[k - 1]);
            c.Clause? && GroupMeans([Open] + c.tokens + [Close], c.args, row, Meaning(schema, Children(e)[k - 1], row))
    decreases e, 0
  {
    hide GroupMeans, Compile, Meaning, Means;
    var child := Children(e)[k - 1];
    TreeIs(schema, child, depth + 1, row);
    GroupOf(Compile(schema, child).tokens, Compile(schema, child).args, row, Meaning(schema, child, row));
  }

  lemma OneGroup(schema: Schema, e: Expression, depth: nat)
    requires WellFormed(schema, e, depth) && e.all != []
    ensures e.any == []
  {
  }

  lemma CompileNone(schema: Schema, e: Expression)
    ensures CompileFirst(schema, e, 0) == Fragments([], [])
  {
  }

  ghost predicate SomeOf(schema: Schema, e: Expression, k: nat, row: Row)
    requires k <= |e.any|
  {
    exists i :: 0 <= i < k && Meaning(schema, e.any[i], row)
  }

  ghost predicate EveryOf(schema: Schema, e: Expression, k: nat, row: Row)
    requires k <= |e.all|
  {
    forall i :: 0 <= i < k ==> Meaning(schema, e.all[i], row)
  }

  /** The first `k` children, joined by the operator, mean that some or every one of them holds. */
  ghost predicate AnyMeans(schema: Schema, e: Expression, k: nat, row: Row)
    requires k <= |e.any|
  {
    exists parts, args, o :: CompileFirst(schema, e, k) == Fragments(parts, args)
      && DerivesOr(o, Join(parts, OrWord), args, row, SomeOf(schema, e, k, row))
  }

  ghost predicate AllMeans(schema: Schema, e: Expression, k: nat, row: Row)
    requires k <= |e.all| && e.any == []
  {
    exists parts, args, a :: CompileFirst(schema, e, k) == Fragments(parts, args)
      && DerivesAnd(a, Join(parts, AndWord), args, row, EveryOf(schema, e, k, row))
  }

  lemma AllOfAny(schema: Schema, e: Expression, row: Row)
    requires e.any != [] && AnyMeans(schema, e, |e.any|, row)
    ensures CompilesTo(schema, e, row)
  {
    hide DerivesOr, Join, CompileFirst;
    var parts, args, o :| CompileFirst(schema, e, |e.any|) == Fragments(parts, args)
      && DerivesOr(o, Join(parts, OrWord), args, row, SomeOf(schema, e, |e.any|, row));
    assert Means(Join(parts, OrWord), args, row, Meaning(schema, e, row));
  }

  lemma AllOfAll(schema: Schema, e: Expression, row: Row)
    requires e.all != [] && e.any == [] && AllMeans(schema, e, |e.all|, row)
    ensures CompilesTo(schema, e, row)
  {
    hide DerivesOr, DerivesAnd, Join, CompileFirst;
    var parts, args, a :| CompileFirst(schema, e, |e.all|) == Fragments(parts, args)
      && DerivesAnd(a, Join(parts, AndWord), args, row, EveryOf(schema, e, |e.all|, row));
    DerivesOrOne(a, Join(parts, AndWord), args, row, Meaning(schema, e, row));
    assert Means(Join(parts, AndWord), args, row, Meaning(schema, e, row));
  }

  lemma {:induction false} AnyTreeIs(schema: Schema, e: Expression, k: nat, depth: nat, row: Row)
    requires WellFormed(schema, e, depth) && 0 < k <= |e.any|
    ensures AnyMeans(schema, e, k, row)
    decreases e, k
  {
    hide DerivesOr, DerivesAnd, DerivesUnary, Compile, CompileFirst, Join, Meaning, WellFormed;
    ChildIs(schema, e, k, depth, row);
    var c, meaning := Compile(schema, e.any[k - 1]), Meaning(schema, e.any[k - 1], row);
    var part := [Open] + c.tokens + [Close];
    var u :| DerivesUnary(u, part, c.args, row, meaning);
    DerivesAndOne(u, part, c.args, row, meaning);
    if k == 1 {
      DerivesOrOne(AndOne(u), part, c.args, row, meaning);
      CompileNone(schema, e);
      CompileFirstStep(schema, e, k, OrWord);
      assert [] + c.args == c.args && [] + [part] == [part];
      assert DerivesOr(OrOne(AndOne(u)), Join([] + [part], OrWord), c.args, row, SomeOf(schema, e, k, row));
    } else {
      AnyTreeIs(schema, e, k - 1, depth, row);
      var some := SomeOf(schema, e, k - 1, row);
      var parts, args, o :| CompileFirst(schema, e, k - 1) == Fragments(parts, args) && DerivesOr(o, Join(parts, OrWord), args, row, some);
      DerivesOrMore(o, Join(parts, OrWord), args, some, AndOne(u), part, c.args, meaning, row);
      CompileFirstStep(schema, e, k, OrWord);
      assert (some || meaning) == SomeOf(schema, e, k, row);
    }
  }

  lemma {:induction false} AllTreeIs(schema: Schema, e: Expression, k: nat, depth: nat, row: Row)
    requires WellFormed(schema, e, depth) && 0 < k <= |e.all|
    ensures e.any == [] && AllMeans(schema, e, k, row)
    decreases e, k
  {
    hide DerivesOr, DerivesAnd, DerivesUnary, Compile, CompileFirst, Join, Meaning, WellFormed;
    OneGroup(schema, e, depth);
    ChildIs(schema, e, k, depth, row);
    var c, meaning := Compile(schema, e.all[k - 1]), Meaning(schema, e.all[k - 1], row);
    var part := [Open] + c.tokens + [Close];
    var u :| DerivesUnary(u, part, c.args, row, meaning);
    if k == 1 {
      DerivesAndOne(u, part, c.args, row, meaning);
      CompileNone(schema, e);
      CompileFirstStep(schema, e, k, AndWord);
      assert [] + c.args == c.args && [] + [part] == [part];
      assert DerivesAnd(AndOne(u), Join([] + [part], AndWord), c.args, row, EveryOf(schema, e, k, row));
    } else {
      AllTreeIs(schema, e, k - 1, depth, row);
      var every := EveryOf(schema, e, k - 1, row);
      var parts, args, a :| CompileFirst(schema, e, k - 1) == Fragments(parts, args) && DerivesAnd(a, Join(parts, AndWord), args, row, every);
      DerivesAndMore(a, Join(parts, AndWord), args, every, u, part, c.args, meaning, row);
      CompileFirstStep(schema, e, k, AndWord);
      assert (every && meaning) == EveryOf(schema, e, k, row);
    }
  }

  // ----- the arguments -----

  /** The values a predicate compares with. */
  function ValuesOf(p: Predicate): seq<string> {
    match Comparator(p)
    case "exists" => []
    case "not_exists" => []
    case "in" => p.values
    case _ => [p.value]
  }

  /** A value of a predicate: whether its field is numeric, and the text of the value. */
  datatype Value = Value(numeric: bool, text: string)

  /** The values in the tree, from left to right. */
  function Values(schema: Schema, e: Expression): seq<Value>
    decreases e, |Children(e)| + 1
  {
    if Children(e) != [] then ValuesOfFirst(schema, e, |Children(e)|)
    else if e.negated.Some? then Values(schema, e.negated.value)
    else if e.test.None? then []
    else
      var values, field := ValuesOf(e.test.value), schema.resolve(e.test.value.field);
      seq(|values|, i requires 0 <= i < |values| => Value(field.Some? && field.value.kind == NumberField, values[i]))
  }

  function ValuesOfFirst(schema: Schema, e: Expression, k: nat): seq<Value>
    requires k <= |Children(e)|
    decreases e, k
  {
    if k == 0 then [] else ValuesOfFirst(schema, e, k - 1) + Values(schema, Children(e)[k - 1])
  }

  /** A numeric value is bound as the integer it spells, any other as its text. */
  ghost predicate BoundTo(schema: Schema, values: seq<Value>, args: seq<Arg>) {
    |args| == |values| && forall i :: 0 <= i < |values| ==>
      if values[i].numeric then args[i].NumberArg? && schema.parseInt(values[i].text) == Some(args[i].number)
      else args[i] == TextArg(values[i].text)
  }

  /** The arguments of an accepted expression are the values of its predicates, from left to right. */
  lemma {:induction false} ArgumentsAreValues(schema: Schema, e: Expression, depth: nat)
    requires WellFormed(schema, e, depth)
    ensures exists tokens, args :: Compile(schema, e) == Clause(tokens, args) && BoundTo(schema, Values(schema, e), args)
    decreases e, |Children(e)| + 1
  {
    hide BoundTo, CompilePredicate, ValuesOf, ValidPredicate, Join;
    if Children(e) != [] {
      ArgumentsOfFirst(schema, e, |Children(e)|, depth);
    } else if e.negated.Some? {
      ArgumentsAreValues(schema, e.negated.value, depth + 1);
    } else {
      PredicateArguments(schema, e);
    }
  }

  ghost predicate FirstBound(schema: Schema, e: Expression, k: nat)
    requires k <= |Children(e)|
  {
    exists parts, args :: CompileFirst(schema, e, k) == Fragments(parts, args) && BoundTo(schema, ValuesOfFirst(schema, e, k), args)
  }

  lemma ValuesSteps(schema: Schema, e: Expression, k: nat)
    requires k <= |Children(e)|
    ensures ValuesOfFirst(schema, e, k) == if k == 0 then [] else ValuesOfFirst(schema, e, k - 1) + Values(schema, Children(e)[k - 1])
  {
  }

  lemma BoundToMore(schema: Schema, v: seq<Value>, a: seq<Arg>, w: seq<Value>, b: seq<Arg>)
    requires BoundTo(schema, v, a) && BoundTo(schema, w, b)
    ensures BoundTo(schema, v + w, a + b)
  {
  }

  lemma {:induction false} ArgumentsOfFirst(schema: Schema, e: Expression, k: nat, depth: nat)
    requires WellFormed(schema, e, depth) && k <= |Children(e)|
    ensures FirstBound(schema, e, k)
    decreases e, k
  {
    hide Values, Compile, ValuesOfFirst;
    ValuesSteps(schema, e, k);
    if k == 0 {
      CompileNone(schema, e);
      assert BoundTo(schema, [], []);
    } else {
      ArgumentsOfFirst(schema, e, k - 1, depth);
      ArgumentsAreValues(schema, Children(e)[k - 1], depth + 1);
      CompileFirstStep(schema, e, k, AndWord);
      BoundToMore(schema, ValuesOfFirst(schema, e, k - 1), CompileFirst(schema, e, k - 1).args,
                  Values(schema, Children(e)[k - 1]), Compile(schema, Children(e)[k - 1]).args);
    }
  }

  lemma PredicateArguments(schema: Schema, e: Expression)
    requires Branches(e) == 1 && e.test.Some? && ValidPredicate(schema, e.test.value)
    ensures Compile(schema, e).Clause? && BoundTo(schema, Values(schema, e), Compile(schema, e).args)
  {
    var p := e.test.value;
    if Comparator(p) == "in" {
      assert forall i :: 0 <= i < |p.values| ==> p.values[i] in p.values;
    }
  }

  /**
   What is accepted, in terms of what would be emitted: the field is searchable,
   the SQL test exists for it, and every value compared with has a bounded length
   and for a numeric field spells an integer.
   */
  lemma ValidPredicateExactly(schema: Schema, p: Predicate)
    ensures var c, values := CompilePredicate(schema, p), ValuesOf(p);
            ValidPredicate(schema, p) <==>
              && c.Clause? && c.tokens[0].test != NumberOperator("")
              && (Comparator(p) == "in" ==> 1 <= |values| <= 100)
              && forall v :: v in values ==>
                   1 <= |v| <= 1024 && (schema.resolve(p.field).value.kind == NumberField ==> schema.parseInt(v).Some?)
  {
  }

  lemma {:induction false} HolesAppend(s: seq<SqlToken>, t: seq<SqlToken>)
    ensures HolesIn(s + t) == HolesIn(s) + HolesIn(t)
  {
    if t == [] {
      assert s + t == s;
    } else {
      assert (s + t)[..|s + t| - 1] == s + t[..|t| - 1];
      HolesAppend(s, t[..|t| - 1]);
    }
  }

  lemma {:induction false} HolesOfOr(o: OrTree<SqlToken>)
    requires ValidOr(SqlLexicon(), o)
    ensures HolesIn(YieldOr(o)) == Holes(OrNode(o))
  {
    match o
    case OrOne(a) => HolesOfAnd(a);
    case OrMore(l, op, r) =>
      HolesOfOr(l);
      HolesOfAnd(r);
      HolesAppend(YieldOr(l), [op]);
      HolesAppend(YieldOr(l) + [op], YieldAnd(r));
  }

  lemma {:induction false} HolesOfAnd(a: AndTree<SqlToken>)
    requires ValidAnd(SqlLexicon(), a)
    ensures HolesIn(YieldAnd(a)) == Holes(AndNode(a))
  {
    match a
    case AndOne(u) => HolesOfUnary(u);
    case AndMore(l, op, r) =>
      HolesOfAnd(l);
      HolesOfUnary(r);
      HolesAppend(YieldAnd(l), [op]);
      HolesAppend(YieldAnd(l) + [op], YieldUnary(r));
  }

  lemma {:induction false} HolesOfUnary(u: UnaryTree<SqlToken>)
    requires ValidUnary(SqlLexicon(), u)
    ensures HolesIn(YieldUnary(u)) == Holes(UnaryNode(u))
  {
    match u
    case Leaf(t) =>
    case Negation(op, c) =>
      HolesOfUnary(c);
      HolesAppend([op], YieldUnary(c));
    case Group(o, inner, c) =>
      HolesOfOr(inner);
      HolesAppend([o], YieldOr(inner));
      HolesAppend([o] + YieldOr(inner), [c]);
  }

  lemma MeansParsed(tokens: seq<SqlToken>, args: seq<Arg>, row: Row, meaning: bool)
    requires Means(tokens, args, row, meaning)
    ensures HolesIn(tokens) == |args|
    ensures var parsed := Parse(SqlLexicon(), tokens);
            parsed.Success? && Holes(parsed.node) == |args| && EvalSql(parsed.node, args, row) == meaning
  {
    var o :| DerivesOr(o, tokens, args, row, meaning);
    ParseYield(SqlLexicon(), o);
    HolesOfOr(o);
  }

  /**
   An accepted expression always compiles; the clause has one argument per
   placeholder, parses under SQL precedence, and on every row evaluates to the
   boolean meaning of the expression.
   */
  lemma CompilePreservesMeaning(schema: Schema, e: Expression, row: Row)
    requires WellFormed(schema, e, 1)
    ensures var c := Compile(schema, e);
            && c.Clause? && HolesIn(c.tokens) == |c.args|
            && var parsed := Parse(SqlLexicon(), c.tokens);
               && parsed.Success? && Holes(parsed.node) == |c.args|
               && EvalSql(parsed.node, c.args, row) == Meaning(schema, e, row)
  {
    hide Means, Meaning;
    TreeIs(schema, e, 1, row);
    var c := Compile(schema, e);
    MeansParsed(c.tokens, c.args, row, Meaning(schema, e, row));
  }
}
