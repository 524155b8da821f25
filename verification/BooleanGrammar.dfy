/**
 The boolean expression grammar shared by Sigma conditions and SQL clauses:
 NOT binds tighter than AND, AND tighter than OR, both associate to the left.

 Concrete syntax trees are the derivations of the grammar; the parser is proved
 to accept exactly their yields, and a minimal printer is its right inverse.
 Everything is generic in the token type; a lexicon says what each token is.
 */
module BooleanGrammar {

  datatype Lexicon<!T> = Lexicon(
    isOr: T -> bool, isAnd: T -> bool, isNot: T -> bool, isOpen: T -> bool, isClose: T -> bool, isAtom: T -> bool)

  datatype Node<T> = Atom(t: T) | Not(child: Node<T>) | And(left: Node<T>, right: Node<T>) | Or(left: Node<T>, right: Node<T>)

  // ----- derivations -----

  datatype OrTree<T> = OrOne(one: AndTree<T>) | OrMore(left: OrTree<T>, op: T, right: AndTree<T>)
  datatype AndTree<T> = AndOne(one: UnaryTree<T>) | AndMore(left: AndTree<T>, op: T, right: UnaryTree<T>)
  datatype UnaryTree<T> = Leaf(t: T) | Negation(op: T, child: UnaryTree<T>) | Group(open: T, inner: OrTree<T>, close: T)

  /** A token the parser takes for an atom: not one of the two that open something. */
  predicate IsLeaf<T>(lex: Lexicon<T>, t: T) {
    lex.isAtom(t) && !lex.isNot(t) && !lex.isOpen(t)
  }

  predicate ValidOr<T>(lex: Lexicon<T>, o: OrTree<T>) {
    match o
    case OrOne(a) => ValidAnd(lex, a)
    case OrMore(l, op, r) => ValidOr(lex, l) && lex.isOr(op) && ValidAnd(lex, r)
  }

  predicate ValidAnd<T>(lex: Lexicon<T>, a: AndTree<T>) {
    match a
    case AndOne(u) => ValidUnary(lex, u)
    case AndMore(l, op, r) => ValidAnd(lex, l) && lex.isAnd(op) && ValidUnary(lex, r)
  }

  predicate ValidUnary<T>(lex: Lexicon<T>, u: UnaryTree<T>) {
    match u
    case Leaf(t) => IsLeaf(lex, t)
    case Negation(op, c) => lex.isNot(op) && ValidUnary(lex, c)
    case Group(o, inner, c) => lex.isOpen(o) && ValidOr(lex, inner) && lex.isClose(c)
  }

  function YieldOr<T>(o: OrTree<T>): seq<T> {
    match o
    case OrOne(a) => YieldAnd(a)
    case OrMore(l, op, r) => YieldOr(l) + [op] + YieldAnd(r)
  }

  function YieldAnd<T>(a: AndTree<T>): seq<T> {
    match a
    case AndOne(u) => YieldUnary(u)
    case AndMore(l, op, r) => YieldAnd(l) + [op] + YieldUnary(r)
  }

  function YieldUnary<T>(u: UnaryTree<T>): seq<T> {
    match u
    case Leaf(t) => [t]
    case Negation(op, c) => [op] + YieldUnary(c)
    case Group(o, inner, c) => [o] + YieldOr(inner) + [c]
  }

  function OrNode<T>(o: OrTree<T>): Node<T> {
    match o
    case OrOne(a) => AndNode(a)
    case OrMore(l, _, r) => Or(OrNode(l), AndNode(r))
  }

  function AndNode<T>(a: AndTree<T>): Node<T> {
    match a
    case AndOne(u) => UnaryNode(u)
    case AndMore(l, _, r) => And(AndNode(l), UnaryNode(r))
  }

  function UnaryNode<T>(u: UnaryTree<T>): Node<T> {
    match u
    case Leaf(t) => Atom(t)
    case Negation(_, c) => Not(UnaryNode(c))
    case Group(_, inner, _) => OrNode(inner)
  }

  // ----- the recursive-descent parser -----

  datatype ParseError<T> = Empty | UnexpectedEnd | MissingClose | Unknown(t: T) | Trailing(t: T)

  datatype Step<T> = Ok(node: Node<T>, rest: seq<T>) | Fail(error: ParseError<T>)

  datatype Parsed<T> = Success(node: Node<T>) | Failure(error: ParseError<T>)

  function ParseOr<T>(lex: Lexicon<T>, ts: seq<T>): (r: Step<T>)
    ensures r.Ok? ==> |r.rest| < |ts|
    decreases |ts|, 3
  {
    match ParseAnd(lex, ts)
    case Fail(e) => Fail(e)
    case Ok(left, rest) => OrLoop(lex, left, rest)
  }

  function OrLoop<T>(lex: Lexicon<T>, left: Node<T>, ts: seq<T>): (r: Step<T>)
    ensures r.Ok? ==> |r.rest| <= |ts|
    decreases |ts|, 0
  {
    if ts != [] && lex.isOr(ts[0]) then
      match ParseAnd(lex, ts[1..])
      case Fail(e) => Fail(e)
      case Ok(right, rest) => OrLoop(lex, Or(left, right), rest)
    else
      Ok(left, ts)
  }

  function ParseAnd<T>(lex: Lexicon<T>, ts: seq<T>): (r: Step<T>)
    ensures r.Ok? ==> |r.rest| < |ts|
    decreases |ts|, 2
  {
    match ParseUnary(lex, ts)
    case Fail(e) => Fail(e)
    case Ok(left, rest) => AndLoop(lex, left, rest)
  }

  function AndLoop<T>(lex: Lexicon<T>, left: Node<T>, ts: seq<T>): (r: Step<T>)
    ensures r.Ok? ==> |r.rest| <= |ts|
    decreases |ts|, 0
  {
    if ts != [] && lex.isAnd(ts[0]) then
      match ParseUnary(lex, ts[1..])
      case Fail(e) => Fail(e)
      case Ok(right, rest) => AndLoop(lex, And(left, right), rest)
    else
      Ok(left, ts)
  }

  function ParseUnary<T>(lex: Lexicon<T>, ts: seq<T>): (r: Step<T>)
    ensures r.Ok? ==> |r.rest| < |ts|
    decreases |ts|, 1
  {
    if ts == [] then Fail(UnexpectedEnd)
    else if lex.isNot(ts[0]) then
      match ParseUnary(lex, ts[1..])
      case Fail(e) => Fail(e)
      case Ok(child, rest) => Ok(Not(child), rest)
    else if lex.isOpen(ts[0]) then
      match ParseOr(lex, ts[1..])
      case Fail(e) => Fail(e)
      case Ok(node, rest) =>
        if rest != [] && lex.isClose(rest[0]) then Ok(node, rest[1..]) else Fail(MissingClose)
    else if lex.isAtom(ts[0]) then Ok(Atom(ts[0]), ts[1..])
    else Fail(Unknown(ts[0]))
  }

  function Parse<T>(lex: Lexicon<T>, ts: seq<T>): Parsed<T> {
    if ts == [] then Failure(Empty)
    else
      match ParseOr(lex, ts)
      case Fail(e) => Failure(e)
      case Ok(node, rest) => if rest == [] then Success(node) else Failure(Trailing(rest[0]))
  }

  // ----- soundness: what the parser accepts is derivable -----

  lemma Regroup<T>(left: seq<T>, middle: seq<T>, rest: seq<T>, ts: seq<T>)
    requires ts != [] && middle + rest == ts[1..]
    ensures (left + [ts[0]] + middle) + rest == left + ts
  {
    assert ts == [ts[0]] + (middle + rest);
  }

  /** `o` reads as `node` and, with `rest` behind it, is the given text. */
  ghost predicate ReadsOr<T>(lex: Lexicon<T>, o: OrTree<T>, text: seq<T>, node: Node<T>, rest: seq<T>) {
    ValidOr(lex, o) && OrNode(o) == node && YieldOr(o) + rest == text
  }

  ghost predicate ReadsAnd<T>(lex: Lexicon<T>, a: AndTree<T>, text: seq<T>, node: Node<T>, rest: seq<T>) {
    ValidAnd(lex, a) && AndNode(a) == node && YieldAnd(a) + rest == text
  }

  ghost predicate ReadsUnary<T>(lex: Lexicon<T>, u: UnaryTree<T>, text: seq<T>, node: Node<T>, rest: seq<T>) {
    ValidUnary(lex, u) && UnaryNode(u) == node && YieldUnary(u) + rest == text
  }

  lemma {:induction false} SoundOr<T(!new)>(lex: Lexicon<T>, ts: seq<T>)
    requires ParseOr(lex, ts).Ok?
    ensures var r := ParseOr(lex, ts); exists o :: ReadsOr(lex, o, ts, r.node, r.rest)
    decreases |ts|, 3
  {
    SoundAnd(lex, ts);
    var r := ParseAnd(lex, ts);
    var a :| ReadsAnd(lex, a, ts, r.node, r.rest);
    SoundOrLoop(lex, OrOne(a), r.rest);
  }

  lemma {:induction false} SoundOrLoop<T(!new)>(lex: Lexicon<T>, left: OrTree<T>, ts: seq<T>)
    requires ValidOr(lex, left) && OrLoop(lex, OrNode(left), ts).Ok?
    ensures var r := OrLoop(lex, OrNode(left), ts); exists o :: ReadsOr(lex, o, YieldOr(left) + ts, r.node, r.rest)
    decreases |ts|, 0
  {
    if ts != [] && lex.isOr(ts[0]) {
      SoundAnd(lex, ts[1..]);
      var r := ParseAnd(lex, ts[1..]);
      var a :| ReadsAnd(lex, a, ts[1..], r.node, r.rest);
      Regroup(YieldOr(left), YieldAnd(a), r.rest, ts);
      SoundOrLoop(lex, OrMore(left, ts[0], a), r.rest);
    } else {
      assert ReadsOr(lex, left, YieldOr(left) + ts, OrNode(left), ts);
    }
  }

  lemma {:induction false} SoundAnd<T(!new)>(lex: Lexicon<T>, ts: seq<T>)
    requires ParseAnd(lex, ts).Ok?
    ensures var r := ParseAnd(lex, ts); exists a :: ReadsAnd(lex, a, ts, r.node, r.rest)
    decreases |ts|, 2
  {
    SoundUnary(lex, ts);
    var r := ParseUnary(lex, ts);
    var u :| ReadsUnary(lex, u, ts, r.node, r.rest);
    SoundAndLoop(lex, AndOne(u), r.rest);
  }

  lemma {:induction false} SoundAndLoop<T(!new)>(lex: Lexicon<T>, left: AndTree<T>, ts: seq<T>)
    requires ValidAnd(lex, left) && AndLoop(lex, AndNode(left), ts).Ok?
    ensures var r := AndLoop(lex, AndNode(left), ts); exists a :: ReadsAnd(lex, a, YieldAnd(left) + ts, r.node, r.rest)
    decreases |ts|, 0
  {
    if ts != [] && lex.isAnd(ts[0]) {
      SoundUnary(lex, ts[1..]);
      var r := ParseUnary(lex, ts[1..]);
      var u :| ReadsUnary(lex, u, ts[1..], r.node, r.rest);
      Regroup(YieldAnd(left), YieldUnary(u), r.rest, ts);
      SoundAndLoop(lex, AndMore(left, ts[0], u), r.rest);
    } else {
      assert ReadsAnd(lex, left, YieldAnd(left) + ts, AndNode(left), ts);
    }
  }

  lemma {:induction false} SoundUnary<T(!new)>(lex: Lexicon<T>, ts: seq<T>)
    requires ParseUnary(lex, ts).Ok?
    ensures var r := ParseUnary(lex, ts); exists u :: ReadsUnary(lex, u, ts, r.node, r.rest)
    decreases |ts|, 1
  {
    var r := ParseUnary(lex, ts);
    if lex.isNot(ts[0]) {
      SoundUnary(lex, ts[1..]);
      var c :| ReadsUnary(lex, c, ts[1..], ParseUnary(lex, ts[1..]).node, r.rest);
      assert ReadsUnary(lex, Negation(ts[0], c), ts, r.node, r.rest);
    } else if lex.isOpen(ts[0]) {
      SoundOr(lex, ts[1..]);
      var rest := ParseOr(lex, ts[1..]).rest;
      var inner :| ReadsOr(lex, inner, ts[1..], r.node, rest);
      var u := Group(ts[0], inner, rest[0]);
      assert [ts[0]] + (YieldOr(inner) + ([rest[0]] + rest[1..])) == YieldUnary(u) + rest[1..];
      assert ReadsUnary(lex, u, ts, r.node, r.rest);
    } else {
      assert ReadsUnary(lex, Leaf(ts[0]), ts, r.node, r.rest);
    }
  }

  // ----- completeness: every derivable token list is accepted, with its tree -----

  /** The tokens that decide what comes next do not overlap. */
  ghost predicate Separated<T(!new)>(lex: Lexicon<T>) {
    forall t ::
      && (lex.isOr(t) ==> !lex.isAnd(t))
      && (lex.isClose(t) ==> !lex.isAnd(t) && !lex.isOr(t))
      && (lex.isOpen(t) ==> !lex.isNot(t))
  }

  lemma {:induction false} CompleteOr<T(!new)>(lex: Lexicon<T>, o: OrTree<T>, rest: seq<T>)
    requires Separated(lex) && ValidOr(lex, o)
    requires rest != [] ==> !lex.isAnd(rest[0])
    ensures ParseOr(lex, YieldOr(o) + rest) == OrLoop(lex, OrNode(o), rest)
  {
    match o
    case OrOne(a) =>
      CompleteAnd(lex, a, rest);
    case OrMore(l, op, r) =>
      var tail := [op] + (YieldAnd(r) + rest);
      assert YieldOr(o) + rest == YieldOr(l) + tail;
      assert tail[1..] == YieldAnd(r) + rest;
      CompleteOr(lex, l, tail);
      CompleteAnd(lex, r, rest);
  }

  lemma {:induction false} CompleteAnd<T(!new)>(lex: Lexicon<T>, a: AndTree<T>, rest: seq<T>)
    requires Separated(lex) && ValidAnd(lex, a)
    ensures ParseAnd(lex, YieldAnd(a) + rest) == AndLoop(lex, AndNode(a), rest)
  {
    match a
    case AndOne(u) =>
      CompleteUnary(lex, u, rest);
    case AndMore(l, op, r) =>
      var tail := [op] + (YieldUnary(r) + rest);
      assert YieldAnd(a) + rest == YieldAnd(l) + tail;
      assert tail[1..] == YieldUnary(r) + rest;
      CompleteAnd(lex, l, tail);
      CompleteUnary(lex, r, rest);
  }

  lemma {:induction false} CompleteUnary<T(!new)>(lex: Lexicon<T>, u: UnaryTree<T>, rest: seq<T>)
    requires Separated(lex) && ValidUnary(lex, u)
    ensures ParseUnary(lex, YieldUnary(u) + rest) == Ok(UnaryNode(u), rest)
  {
    var ts := YieldUnary(u) + rest;
    match u
    case Leaf(t) =>
      assert ts[1..] == rest;
    case Negation(op, c) =>
      CompleteUnary(lex, c, rest);
      assert ts[1..] == YieldUnary(c) + rest;
    case Group(o, inner, c) =>
      CompleteOr(lex, inner, [c] + rest);
      assert ts[1..] == YieldOr(inner) + ([c] + rest);
      assert ([c] + rest)[1..] == rest;
  }

  /** The parser accepts exactly the derivable token lists and returns their tree. */
  lemma ParseExactly<T(!new)>(lex: Lexicon<T>, ts: seq<T>, node: Node<T>)
    requires Separated(lex)
    ensures Parse(lex, ts) == Success(node) <==> exists o :: ValidOr(lex, o) && YieldOr(o) == ts && OrNode(o) == node
  {
    if Parse(lex, ts) == Success(node) {
      SoundOr(lex, ts);
      var o :| ReadsOr(lex, o, ts, node, []);
      assert YieldOr(o) + [] == YieldOr(o);
      assert ValidOr(lex, o) && YieldOr(o) == ts && OrNode(o) == node;
    }
    forall o | ValidOr(lex, o) && YieldOr(o) == ts && OrNode(o) == node
      ensures Parse(lex, ts) == Success(node)
    {
      ParseYield(lex, o);
    }
  }

  lemma ParseYield<T(!new)>(lex: Lexicon<T>, o: OrTree<T>)
    requires Separated(lex) && ValidOr(lex, o)
    ensures Parse(lex, YieldOr(o)) == Success(OrNode(o))
  {
    CompleteOr(lex, o, []);
    assert YieldOr(o) + [] == YieldOr(o);
  }

  /** The grammar is unambiguous. */
  lemma Unambiguous<T(!new)>(lex: Lexicon<T>, o: OrTree<T>, p: OrTree<T>)
    requires Separated(lex) && ValidOr(lex, o) && ValidOr(lex, p) && YieldOr(o) == YieldOr(p)
    ensures OrNode(o) == OrNode(p)
  {
    ParseYield(lex, o);
    ParseYield(lex, p);
  }

  /** The atoms of a tree. */
  function Atoms<T>(n: Node<T>): set<T> {
    match n
    case Atom(t) => {t}
    case Not(c) => Atoms(c)
    case And(l, r) => Atoms(l) + Atoms(r)
    case Or(l, r) => Atoms(l) + Atoms(r)
  }

  ghost predicate Occurs<T>(t: T, ts: seq<T>) {
    t in ts
  }

  lemma {:induction false} AtomsOfOr<T>(lex: Lexicon<T>, o: OrTree<T>)
    requires ValidOr(lex, o)
    ensures forall t :: t in Atoms(OrNode(o)) ==> IsLeaf(lex, t) && Occurs(t, YieldOr(o))
  {
    match o
    case OrOne(a) => AtomsOfAnd(lex, a);
    case OrMore(l, _, r) => AtomsOfOr(lex, l); AtomsOfAnd(lex, r);
  }

  lemma {:induction false} AtomsOfAnd<T>(lex: Lexicon<T>, a: AndTree<T>)
    requires ValidAnd(lex, a)
    ensures forall t :: t in Atoms(AndNode(a)) ==> IsLeaf(lex, t) && Occurs(t, YieldAnd(a))
  {
    match a
    case AndOne(u) => AtomsOfUnary(lex, u);
    case AndMore(l, _, r) => AtomsOfAnd(lex, l); AtomsOfUnary(lex, r);
  }

  lemma {:induction false} AtomsOfUnary<T>(lex: Lexicon<T>, u: UnaryTree<T>)
    requires ValidUnary(lex, u)
    ensures forall t :: t in Atoms(UnaryNode(u)) ==> IsLeaf(lex, t) && Occurs(t, YieldUnary(u))
  {
    match u
    case Leaf(_) =>
    case Negation(_, c) => AtomsOfUnary(lex, c);
    case Group(_, inner, _) => AtomsOfOr(lex, inner);
  }

  /** Only tokens of the list that the parser takes for atoms appear at the leaves of the tree. */
  lemma ParsedAtoms<T(!new)>(lex: Lexicon<T>, ts: seq<T>)
    requires Parse(lex, ts).Success?
    ensures forall t :: t in Atoms(Parse(lex, ts).node) ==> IsLeaf(lex, t) && Occurs(t, ts)
  {
    SoundOr(lex, ts);
    var o :| ReadsOr(lex, o, ts, ParseOr(lex, ts).node, ParseOr(lex, ts).rest);
    AtomsOfOr(lex, o);
    assert YieldOr(o) + [] == YieldOr(o);
  }

  // ----- the minimal printer -----

  /** The tokens a printer uses for the operators. */
  datatype Words<T> = Words(or: T, and: T, not: T, open: T, close: T)

  predicate Speaks<T>(lex: Lexicon<T>, w: Words<T>) {
    lex.isOr(w.or) && lex.isAnd(w.and) && lex.isNot(w.not) && lex.isOpen(w.open) && lex.isClose(w.close)
  }

  function ToOr<T>(w: Words<T>, n: Node<T>): OrTree<T>
    decreases n, 2
  {
    match n
    case Or(l, r) => OrMore(ToOr(w, l), w.or, ToAnd(w, r))
    case _ => OrOne(ToAnd(w, n))
  }

  function ToAnd<T>(w: Words<T>, n: Node<T>): AndTree<T>
    decreases n, 1
  {
    match n
    case And(l, r) => AndMore(ToAnd(w, l), w.and, ToUnary(w, r))
    case _ => AndOne(ToUnary(w, n))
  }

  function ToUnary<T>(w: Words<T>, n: Node<T>): UnaryTree<T>
    decreases n, 0
  {
    match n
    case Atom(t) => Leaf(t)
    case Not(c) => Negation(w.not, ToUnary(w, c))
    case And(l, r) => Group(w.open, OrOne(AndMore(ToAnd(w, l), w.and, ToUnary(w, r))), w.close)
    case Or(l, r) => Group(w.open, OrMore(ToOr(w, l), w.or, ToAnd(w, r)), w.close)
  }

  function Print<T>(w: Words<T>, n: Node<T>): seq<T> {
    YieldOr(ToOr(w, n))
  }

  lemma {:induction false} PrinterDerives<T>(lex: Lexicon<T>, w: Words<T>, n: Node<T>)
    requires Speaks(lex, w) && forall t :: t in Atoms(n) ==> IsLeaf(lex, t)
    ensures ValidOr(lex, ToOr(w, n)) && OrNode(ToOr(w, n)) == n
    ensures ValidAnd(lex, ToAnd(w, n)) && AndNode(ToAnd(w, n)) == n
    ensures ValidUnary(lex, ToUnary(w, n)) && UnaryNode(ToUnary(w, n)) == n
  {
    match n
    case Atom(_) => PrinterLifts(lex, w, n);
    case Not(c) =>
      PrinterDerives(lex, w, c);
      PrinterLifts(lex, w, n);
    case And(l, r) => PrinterDerives(lex, w, l); PrinterDerives(lex, w, r);
    case Or(l, r) => PrinterDerives(lex, w, l); PrinterDerives(lex, w, r);
  }

  lemma PrinterLifts<T>(lex: Lexicon<T>, w: Words<T>, n: Node<T>)
    requires (n.Atom? || n.Not?) && ValidUnary(lex, ToUnary(w, n)) && UnaryNode(ToUnary(w, n)) == n
    ensures ValidAnd(lex, ToAnd(w, n)) && AndNode(ToAnd(w, n)) == n
    ensures ValidOr(lex, ToOr(w, n)) && OrNode(ToOr(w, n)) == n
  {
    assert ToOr(w, n) == OrOne(ToAnd(w, n)) && ToAnd(w, n) == AndOne(ToUnary(w, n));
    assert ValidAnd(lex, AndOne(ToUnary(w, n))) && AndNode(AndOne(ToUnary(w, n))) == n;
  }

  /** Parsing what was printed returns the tree. */
  lemma RoundTrip<T(!new)>(lex: Lexicon<T>, w: Words<T>, n: Node<T>)
    requires Separated(lex) && Speaks(lex, w) && forall t :: t in Atoms(n) ==> IsLeaf(lex, t)
    ensures Parse(lex, Print(w, n)) == Success(n)
  {
    PrinterDerives(lex, w, n);
    ParseYield(lex, ToOr(w, n));
  }

  lemma {:induction false} PrinterSizes<T>(w: Words<T>, n: Node<T>)
    ensures |YieldOr(ToOr(w, n))| <= |YieldAnd(ToAnd(w, n))| <= |YieldUnary(ToUnary(w, n))| <= |YieldOr(ToOr(w, n))| + 2
  {
    match n
    case Not(c) => PrinterSizes(w, c);
    case _ =>
  }

  /** No derivation of the tree has fewer tokens, so no printed parenthesis is redundant. */
  lemma {:induction false} PrintIsMinimalOr<T>(w: Words<T>, o: OrTree<T>)
    ensures |Print(w, OrNode(o))| <= |YieldOr(o)|
  {
    match o
    case OrOne(a) => PrintIsMinimalAnd(w, a); PrinterSizes(w, AndNode(a));
    case OrMore(l, _, r) => PrintIsMinimalOr(w, l); PrintIsMinimalAnd(w, r);
  }

  lemma {:induction false} PrintIsMinimalAnd<T>(w: Words<T>, a: AndTree<T>)
    ensures |YieldAnd(ToAnd(w, AndNode(a)))| <= |YieldAnd(a)|
  {
    match a
    case AndOne(u) => PrintIsMinimalUnary(w, u); PrinterSizes(w, UnaryNode(u));
    case AndMore(l, _, r) => PrintIsMinimalAnd(w, l); PrintIsMinimalUnary(w, r);
  }

  lemma {:induction false} PrintIsMinimalUnary<T>(w: Words<T>, u: UnaryTree<T>)
    ensures |YieldUnary(ToUnary(w, UnaryNode(u)))| <= |YieldUnary(u)|
  {
    match u
    case Leaf(_) =>
    case Negation(_, c) => PrintIsMinimalUnary(w, c);
    case Group(_, inner, _) => PrintIsMinimalOr(w, inner); PrinterSizes(w, OrNode(inner));
  }
}
