/**
 The meaning of a condition with quantifiers, and the proof that expanding its
 text, tokenizing, parsing and evaluating computes it for every condition.

 The parser on the expanded tokens is shown to follow, step by step, the parser
 on the terms of the text, in which a quantifier is one atom.
 */
module SigmaMeaning {
  import opened Options
  import opened Text
  import opened Grammar = BooleanGrammar
  import opened Sigma
  import opened SigmaQuantifiers

  predicate IsKeyword(t: Term, keyword: string) {
    t.Word? && EqualFold(t.text, keyword)
  }

  function TermLexicon(names: seq<string>): Lexicon<Term> {
    Lexicon(
      (t: Term) => IsKeyword(t, "or"), (t: Term) => IsKeyword(t, "and"), (t: Term) => IsKeyword(t, "not"),
      (t: Term) => IsKeyword(t, "("), (t: Term) => IsKeyword(t, ")"),
      (t: Term) => t.Word? ==> t.text in names)
  }

  lemma TermLexiconIsSeparated(names: seq<string>)
    ensures Separated(TermLexicon(names))
  {
    assert "or"[0] != "and"[0] && "("[0] != "not"[0];
    assert ")"[0] != "or"[0] && ")"[0] != "and"[0];
  }

  /** `1 of P`: some selection matching P holds; `all of P`: every one does. */
  ghost predicate Meaning(n: Node<Term>, names: seq<string>, matched: set<string>) {
    match n
    case Atom(Word(name)) => name in matched
    case Atom(Quantifier(count, _, p)) =>
      if EqualFold(count, "all") then forall s :: s in names && Matches(p, s) ==> s in matched
      else exists s :: s in names && Matches(p, s) && s in matched
    case Not(c) => !Meaning(c, names, matched)
    case And(l, r) => Meaning(l, names, matched) && Meaning(r, names, matched)
    case Or(l, r) => Meaning(l, names, matched) || Meaning(r, names, matched)
  }

  /** A name that comes back from the expanded text as one token that the parser takes for a selection. */
  predicate IsReadable(name: string) {
    IsWord(name) && IsMentionable(name)
  }

  ghost predicate AllReadable(names: seq<string>) {
    forall n :: n in names ==> IsReadable(n)
  }

  function NameSet(names: seq<string>): set<string> {
    set n | n in names
  }

  // ----- the group a quantifier becomes -----

  function Join(names: seq<string>, op: string): seq<string>
    requires names != []
  {
    if |names| == 1 then names
    else Join(names[..|names| - 1], op) + [op] + [names[|names| - 1]]
  }

  function OrChain(names: seq<string>): OrTree<string>
    requires names != []
  {
    if |names| == 1 then OrOne(AndOne(Leaf(names[0])))
    else OrMore(OrChain(names[..|names| - 1]), "or", AndOne(Leaf(names[|names| - 1])))
  }

  function AndChain(names: seq<string>): AndTree<string>
    requires names != []
  {
    if |names| == 1 then AndOne(Leaf(names[0]))
    else AndMore(AndChain(names[..|names| - 1]), "and", Leaf(names[|names| - 1]))
  }

  lemma LeafIs(w: string, all: seq<string>)
    requires w in all && IsMentionable(w)
    ensures ValidUnary(SigmaLexicon(NameSet(all)), Leaf(w))
    ensures YieldAnd(AndOne(Leaf(w))) == [w] && AndNode(AndOne(Leaf(w))) == Atom(w)
    ensures YieldOr(OrOne(AndOne(Leaf(w)))) == [w] && OrNode(OrOne(AndOne(Leaf(w)))) == Atom(w)
  {
    var u: UnaryTree<string> := Leaf(w);
    assert YieldUnary(u) == [w] && UnaryNode(u) == Atom(w);
    assert YieldAnd(AndOne(u)) == [w] && AndNode(AndOne(u)) == Atom(w);
  }

  ghost predicate MeansSome(node: Node<string>, names: seq<string>) {
    forall matched :: Eval(node, matched) <==> exists n :: n in names && n in matched
  }

  ghost predicate MeansEvery(node: Node<string>, names: seq<string>) {
    forall matched :: Eval(node, matched) <==> forall n :: n in names ==> n in matched
  }

  lemma {:induction false} OrChainIs(names: seq<string>, all: seq<string>)
    requires names != [] && forall n :: n in names ==> n in all && IsMentionable(n)
    ensures exists node :: ReadsOr(SigmaLexicon(NameSet(all)), OrChain(names), Join(names, "or"), node, []) && MeansSome(node, names)
  {
    hide IsMentionable;
    assert Lower("or") == "or";
    LeafIs(names[|names| - 1], all);
    assert ValidAnd(SigmaLexicon(NameSet(all)), AndOne(Leaf(names[|names| - 1])));
    if |names| > 1 {
      var front := names[..|names| - 1];
      var last := names[|names| - 1];
      assert names == front + [last];
      OrChainIs(front, all);
      var node :| ReadsOr(SigmaLexicon(NameSet(all)), OrChain(front), Join(front, "or"), node, []) && MeansSome(node, front);
      assert YieldOr(OrChain(front)) + [] == YieldOr(OrChain(front)) && node == OrNode(OrChain(front));
      assert OrChain(names) == OrMore(OrChain(front), "or", AndOne(Leaf(last)));
      assert OrNode(OrChain(names)) == Or(node, Atom(last));
      assert YieldOr(OrChain(names)) == Join(front, "or") + ["or"] + [last];
      assert forall matched :: Eval(Or(node, Atom(last)), matched) <==> Eval(node, matched) || last in matched;
      assert last in names && forall n :: n in names <==> n in front || n == last;
    }
    assert Join(names, "or") + [] == Join(names, "or");
    assert ReadsOr(SigmaLexicon(NameSet(all)), OrChain(names), Join(names, "or"), OrNode(OrChain(names)), []);
    assert MeansSome(OrNode(OrChain(names)), names);
  }

  lemma {:induction false} AndChainIs(names: seq<string>, all: seq<string>)
    requires names != [] && forall n :: n in names ==> n in all && IsMentionable(n)
    ensures exists node :: ReadsAnd(SigmaLexicon(NameSet(all)), AndChain(names), Join(names, "and"), node, []) && MeansEvery(node, names)
  {
    hide IsMentionable;
    assert Lower("and") == "and";
    LeafIs(names[|names| - 1], all);
    if |names| > 1 {
      var front := names[..|names| - 1];
      var last := names[|names| - 1];
      assert names == front + [last];
      AndChainIs(front, all);
      var node :| ReadsAnd(SigmaLexicon(NameSet(all)), AndChain(front), Join(front, "and"), node, []) && MeansEvery(node, front);
      assert YieldAnd(AndChain(front)) + [] == YieldAnd(AndChain(front)) && node == AndNode(AndChain(front));
      assert AndChain(names) == AndMore(AndChain(front), "and", Leaf(last));
      assert AndNode(AndChain(names)) == And(node, Atom(last));
      assert forall matched :: Eval(And(node, Atom(last)), matched) <==> Eval(node, matched) && last in matched;
      assert last in names && forall n :: n in names <==> n in front || n == last;
    }
    assert Join(names, "and") + [] == Join(names, "and");
    assert ReadsAnd(SigmaLexicon(NameSet(all)), AndChain(names), Join(names, "and"), AndNode(AndChain(names)), []);
    assert MeansEvery(AndNode(AndChain(names)), names);
  }

  function Group(count: string, selected: seq<string>): UnaryTree<string>
    requires selected != []
  {
    UnaryTree.Group("(", if EqualFold(count, "all") then OrOne(AndChain(selected)) else OrChain(selected), ")")
  }

  /** The group is valid and means "some", or "every" for `all`. */
  lemma GroupIs(names: seq<string>, count: string, selected: seq<string>)
    requires selected != [] && forall n :: n in selected ==> n in names && IsMentionable(n)
    ensures var group := Group(count, selected);
            && ValidUnary(SigmaLexicon(NameSet(names)), group)
            && YieldUnary(group) == ["("] + Join(selected, if EqualFold(count, "all") then "and" else "or") + [")"]
            && forall m :: Eval(UnaryNode(group), m) <==>
                 if EqualFold(count, "all") then forall n :: n in selected ==> n in m
                 else exists n :: n in selected && n in m
  {
    hide IsMentionable;
    assert Lower("(") == "(" && Lower(")") == ")";
    OrChainIs(selected, names);
    AndChainIs(selected, names);
    assert forall op :: Join(selected, op) + [] == Join(selected, op);
    var all: OrTree<string> := OrOne(AndChain(selected));
    assert YieldOr(all) == YieldAnd(AndChain(selected)) && OrNode(all) == AndNode(AndChain(selected));
    assert ValidOr(SigmaLexicon(NameSet(names)), all);
  }

  /** A word in front of a blank or a closing parenthesis is one token. */
  lemma TokenizeOne(w: string, rest: string)
    requires IsWord(w)
    ensures Tokenize(w + " " + rest) == [w] + Tokenize(rest)
    ensures Tokenize(w + ")" + rest) == [w] + [")"] + Tokenize(rest)
  {
    assert (" " + rest)[1..] == rest && (")" + rest)[1..] == rest;
    assert w + " " + rest == w + (" " + rest) && w + ")" + rest == w + (")" + rest);
    assert Tokenize(" " + rest) == Flush("") + Tokenize(rest);
    assert Tokenize(")" + rest) == Flush("") + [")"] + Tokenize(rest);
    if w == "(" || w == ")" {
      assert (w + (" " + rest))[1..] == " " + rest && (w + (")" + rest))[1..] == ")" + rest;
      assert Tokenize(w + (" " + rest)) == Flush("") + [w] + Tokenize(" " + rest);
      assert Tokenize(w + (")" + rest)) == Flush("") + [w] + Tokenize(")" + rest);
    } else {
      TokenizeWord(w, " " + rest, "");
      TokenizeWord(w, ")" + rest, "");
      assert "" + w == w;
      assert Tokenize(" " + rest, w) == Flush(w) + Tokenize(rest);
      assert Tokenize(")" + rest, w) == Flush(w) + [")"] + Tokenize(rest);
    }
  }

  /** Tokenizing the joined names gives them back, the last one being left to what follows. */
  lemma {:induction false} TokenizeJoin(names: seq<string>, op: string, rest: string)
    requires names != [] && (forall n :: n in names ==> IsWord(n)) && IsWord(op)
    ensures Tokenize(JoinText(names, " " + op + " ") + ")" + rest) == Join(names, op) + [")"] + Tokenize(rest)
  {
    hide IsWord;
    TokenizeFront(names, op, ")" + rest);
    var last := names[|names| - 1];
    TokenizeOne(last, rest);
    assert JoinText(names, " " + op + " ") + ")" + rest == JoinText(names, " " + op + " ") + (")" + rest);
    assert last + ")" + rest == last + (")" + rest);
    if |names| == 1 {
      assert names == [last];
    }
  }

  function Before(names: seq<string>, op: string): seq<string>
    requires names != []
  {
    if |names| == 1 then [] else Join(names[..|names| - 1], op) + [op]
  }

  lemma {:induction false} TokenizeFront(names: seq<string>, op: string, rest: string)
    requires names != [] && (forall n :: n in names ==> IsWord(n)) && IsWord(op)
    ensures Tokenize(JoinText(names, " " + op + " ") + rest) == Before(names, op) + Tokenize(names[|names| - 1] + rest)
  {
    hide IsWord, Tokenize;
    if |names| > 1 {
      var front, last := names[..|names| - 1], names[|names| - 1];
      var between, tail := " " + op + " ", last + rest;
      assert JoinText(names, between) + rest == JoinText(front, between) + (between + tail);
      TokenizeFront(front, op, between + tail);
      var previous := front[|front| - 1];
      assert previous in names;
      assert previous + (between + tail) == previous + " " + (op + " " + tail);
      TokenizeOne(previous, op + " " + tail);
      TokenizeOne(op, tail);
      assert Join(front, op) == Before(front, op) + [previous] by {
        if |front| == 1 {
          assert front == [previous];
        }
      }
    }
  }

  lemma GroupWords(count: string, selected: seq<string>)
    requires selected != [] && forall n :: n in selected ==> IsWord(n)
    ensures Tokenize(GroupText(count, selected)) ==
            ["("] + Join(selected, if EqualFold(count, "all") then "and" else "or") + [")"]
  {
    hide IsWord, Join, JoinText;
    var op := if EqualFold(count, "all") then "and" else "or";
    assert IsWord(op) by {
      assert Lower("and") == "and" && Lower("or") == "or";
      KeywordIsWord(op);
    }
    TokenizeJoin(selected, op, "");
    var text := JoinText(selected, " " + op + " ") + ")";
    assert " " + "and" + " " == " and " && " " + "or" + " " == " or ";
    assert text + "" == text && GroupText(count, selected) == "(" + text && ("(" + text)[1..] == text;
    assert Tokenize("(" + text) == Flush("") + ["("] + Tokenize(text);
    assert Tokenize("") == [];
  }

  // ----- the parser on the expanded tokens follows the parser on the terms -----

  function Translate(names: seq<string>, n: Node<Term>): Node<string> {
    match n
    case Atom(Word(w)) => Atom(w)
    case Atom(Quantifier(count, _, p)) =>
      if Selected(names, p) == [] then Atom(p) else UnaryNode(Group(count, Selected(names, p)))
    case Not(c) => Not(Translate(names, c))
    case And(l, r) => And(Translate(names, l), Translate(names, r))
    case Or(l, r) => Or(Translate(names, l), Translate(names, r))
  }

  /** A step on terms, and the same step on their expansion. */
  ghost predicate Follows(names: seq<string>, r: Step<Term>, q: Step<string>) {
    && (r.Fail? ==> q.Fail?)
    && forall n, rest :: r == Ok(n, rest) ==> q == Ok(Translate(names, n), Image(names, rest)) && AllSelective(names, rest)
  }

  lemma SelectiveRest(names: seq<string>, ts: seq<Term>)
    requires ts != [] && AllSelective(names, ts)
    ensures AllSelective(names, ts[1..]) && AllSelective(names, [ts[0]])
    ensures ts[0].Quantifier? ==> Selected(names, ts[0].pattern) != []
  {
    hide Matches;
    assert ts[0] in ts;
    if ts[0].Quantifier? {
      SelectiveTerm(names, ts[0].pattern);
    }
  }

  /** The first token of the expansion: the word itself, or the parenthesis of a group. */
  lemma ImageHead(names: seq<string>, ts: seq<Term>)
    requires AllReadable(names) && AllSelective(names, ts)
    ensures ts == [] <==> Image(names, ts) == []
    ensures ts != [] ==> Image(names, ts)[0] == if ts[0].Word? then ts[0].text else "("
    ensures ts != [] && ts[0].Word? ==> Image(names, ts)[1..] == Image(names, ts[1..])
  {
    hide AllSelective, Tokenize, IsReadable, GroupText;
    if ts != [] && ts[0].Quantifier? {
      SelectiveRest(names, ts);
      QuantifierImage(names, ts[0]);
    }
  }

  lemma QuantifierImage(names: seq<string>, t: Term)
    requires AllReadable(names) && t.Quantifier? && Selected(names, t.pattern) != []
    ensures var group := Group(t.count, Selected(names, t.pattern));
            && ImageOf(names, t) == YieldUnary(group) && ImageOf(names, t)[0] == "("
            && ValidUnary(SigmaLexicon(NameSet(names)), group)
  {
    hide Tokenize, GroupText, IsWord, IsMentionable, Group, Join;
    var selected := Selected(names, t.pattern);
    GroupWords(t.count, selected);
    GroupIs(names, t.count, selected);
  }

  lemma {:induction false} OrFollows(names: seq<string>, ts: seq<Term>)
    requires AllReadable(names) && AllSelective(names, ts)
    ensures Follows(names, ParseOr(TermLexicon(names), ts), ParseOr(SigmaLexicon(NameSet(names)), Image(names, ts)))
    decreases |ts|, 3
  {
    hide Image, AllSelective, AllReadable, EqualFold;
    AndFollows(names, ts);
    var r := ParseAnd(TermLexicon(names), ts);
    if r.Ok? {
      OrLoopFollows(names, r.node, r.rest);
    }
  }

  lemma {:induction false} OrLoopFollows(names: seq<string>, left: Node<Term>, ts: seq<Term>)
    requires AllReadable(names) && AllSelective(names, ts)
    ensures Follows(names, OrLoop(TermLexicon(names), left, ts),
                    OrLoop(SigmaLexicon(NameSet(names)), Translate(names, left), Image(names, ts)))
    decreases |ts|, 0
  {
    hide Image, AllSelective, AllReadable;
    ImageHead(names, ts);
    if ts != [] && IsKeyword(ts[0], "or") {
      SelectiveRest(names, ts);
      AndFollows(names, ts[1..]);
      var r := ParseAnd(TermLexicon(names), ts[1..]);
      if r.Ok? {
        OrLoopFollows(names, Or(left, r.node), r.rest);
      }
    }
  }

  lemma {:induction false} AndFollows(names: seq<string>, ts: seq<Term>)
    requires AllReadable(names) && AllSelective(names, ts)
    ensures Follows(names, ParseAnd(TermLexicon(names), ts), ParseAnd(SigmaLexicon(NameSet(names)), Image(names, ts)))
    decreases |ts|, 2
  {
    hide Image, AllSelective, AllReadable, EqualFold;
    UnaryFollows(names, ts);
    var r := ParseUnary(TermLexicon(names), ts);
    if r.Ok? {
      AndLoopFollows(names, r.node, r.rest);
    }
  }

  lemma {:induction false} AndLoopFollows(names: seq<string>, left: Node<Term>, ts: seq<Term>)
    requires AllReadable(names) && AllSelective(names, ts)
    ensures Follows(names, AndLoop(TermLexicon(names), left, ts),
                    AndLoop(SigmaLexicon(NameSet(names)), Translate(names, left), Image(names, ts)))
    decreases |ts|, 0
  {
    hide Image, AllSelective, AllReadable;
    ImageHead(names, ts);
    if ts != [] && IsKeyword(ts[0], "and") {
      SelectiveRest(names, ts);
      UnaryFollows(names, ts[1..]);
      var r := ParseUnary(TermLexicon(names), ts[1..]);
      if r.Ok? {
        AndLoopFollows(names, And(left, r.node), r.rest);
      }
    }
  }

  lemma {:induction false} UnaryFollows(names: seq<string>, ts: seq<Term>)
    requires AllReadable(names) && AllSelective(names, ts)
    ensures Follows(names, ParseUnary(TermLexicon(names), ts), ParseUnary(SigmaLexicon(NameSet(names)), Image(names, ts)))
    decreases |ts|, 1
  {
    hide Image, AllSelective, AllReadable;
    ImageHead(names, ts);
    if ts != [] {
      SelectiveRest(names, ts);
      if ts[0].Quantifier? {
        QuantifierFollows(names, ts);
      } else if IsKeyword(ts[0], "not") {
        UnaryFollows(names, ts[1..]);
      } else if IsKeyword(ts[0], "(") {
        OrFollows(names, ts[1..]);
        var r := ParseOr(TermLexicon(names), ts[1..]);
        if r.Ok? {
          ImageHead(names, r.rest);
          assert Lower("(")[0] == '(';
          if r.rest != [] {
            SelectiveRest(names, r.rest);
          }
        }
      }
    }
  }

  lemma QuantifierFollows(names: seq<string>, ts: seq<Term>)
    requires AllReadable(names) && AllSelective(names, ts) && ts != [] && ts[0].Quantifier?
    ensures Follows(names, ParseUnary(TermLexicon(names), ts), ParseUnary(SigmaLexicon(NameSet(names)), Image(names, ts)))
  {
    hide AllSelective, AllReadable, ImageOf, Group;
    var t, lex := ts[0], SigmaLexicon(NameSet(names));
    SelectiveRest(names, ts);
    QuantifierImage(names, t);
    CompleteUnary(lex, Group(t.count, Selected(names, t.pattern)), Image(names, ts[1..]));
  }

  /** The translated tree means what the tree of terms means. */
  lemma {:induction false} TranslateIs(names: seq<string>, n: Node<Term>, matched: set<string>)
    requires AllReadable(names) && AllSelective(names, TermsOf(n))
    ensures Eval(Translate(names, n), matched) <==> Meaning(n, names, matched)
  {
    match n
    case Atom(Word(_)) =>
    case Atom(Quantifier(count, _, p)) =>
      assert n.t in TermsOf(n);
      SelectiveTerm(names, p);
      GroupIs(names, count, Selected(names, p));
    case Not(c) => TranslateIs(names, c, matched);
    case And(l, r) =>
      SelectiveAppend(names, TermsOf(l), TermsOf(r));
      TranslateIs(names, l, matched);
      TranslateIs(names, r, matched);
    case Or(l, r) =>
      SelectiveAppend(names, TermsOf(l), TermsOf(r));
      TranslateIs(names, l, matched);
      TranslateIs(names, r, matched);
  }

  /** The atoms of a tree from left to right. */
  function TermsOf(n: Node<Term>): (ts: seq<Term>)
    ensures forall t :: t in ts <==> t in Atoms(n)
  {
    match n
    case Atom(t) => [t]
    case Not(c) => TermsOf(c)
    case And(l, r) => TermsOf(l) + TermsOf(r)
    case Or(l, r) => TermsOf(l) + TermsOf(r)
  }

  // ----- compiling the text of a condition -----

  /** Expand, tokenize and parse. */
  function CompileText(names: seq<string>, condition: string): Option<Node<string>> {
    match ExpandText(names, condition, true)
    case NoSelection => None
    case Expanded(text) =>
      match Parse(SigmaLexicon(NameSet(names)), Tokenize(text))
      case Failure(_) => None
      case Success(node) => Some(node)
  }

  /** `o` derives the terms of the text, and each quantifier matches some selection. */
  ghost predicate Reads(names: seq<string>, condition: string, o: OrTree<Term>) {
    && ValidOr(TermLexicon(names), o)
    && YieldOr(o) == LexText(condition, true, "")
    && AllSelective(names, YieldOr(o))
  }

  /** The parser's verdict on the expanded tokens is its verdict on the terms. */
  lemma CompileFollows(names: seq<string>, condition: string)
    requires AllReadable(names)
    ensures var terms := LexText(condition, true, "");
            var read := Parse(TermLexicon(names), terms);
            CompileText(names, condition) ==
              if AllSelective(names, terms) && read.Success? then Some(Translate(names, read.node)) else None
  {
    hide ParseOr, ExpandText, LexText, Image, AllSelective;
    var terms := LexText(condition, true, "");
    ExpandedWords(names, condition, true, "");
    if AllSelective(names, terms) {
      OrFollows(names, terms);
      ImageHead(names, terms);
      var r := ParseOr(TermLexicon(names), terms);
      if r.Ok? {
        ImageHead(names, r.rest);
      }
    }
  }

  /**
   For readable names and every text: the condition compiles exactly when its
   terms are a sentence whose quantifiers match something, and then it
   evaluates to the meaning of that sentence, wherever the quantifiers stand.
   */
  lemma ExpansionPreservesMeaning(names: seq<string>, condition: string)
    requires AllReadable(names)
    ensures CompileText(names, condition).Some? <==> exists o :: Reads(names, condition, o)
    ensures forall o, matched :: Reads(names, condition, o) ==>
              (Eval(CompileText(names, condition).value, matched) <==> Meaning(OrNode(o), names, matched))
  {
    hide Parse, ParseOr, LexText, Translate, CompileText, IsReadable, AllSelective, Meaning;
    var lex, terms := TermLexicon(names), LexText(condition, true, "");
    CompileFollows(names, condition);
    TermLexiconIsSeparated(names);
    if CompileText(names, condition).Some? {
      ParseExactly(lex, terms, Parse(lex, terms).node);
      var o :| ValidOr(lex, o) && YieldOr(o) == terms && OrNode(o) == Parse(lex, terms).node;
      assert Reads(names, condition, o);
    }
    forall o | Reads(names, condition, o)
      ensures Parse(lex, terms) == Success(OrNode(o))
      ensures forall matched :: Eval(Translate(names, OrNode(o)), matched) <==> Meaning(OrNode(o), names, matched)
    {
      ParseYield(lex, o);
      AtomsOfOr(lex, o);
      FewerAreSelective(names, TermsOf(OrNode(o)), YieldOr(o));
      forall matched {
        TranslateIs(names, OrNode(o), matched);
      }
    }
  }

  lemma FewerAreSelective(names: seq<string>, few: seq<Term>, many: seq<Term>)
    requires AllSelective(names, many) && forall t :: t in few ==> t in many
    ensures AllSelective(names, few)
  {
  }

  // ----- which names are readable, and why it matters -----

  lemma {:induction false} EvalAgrees(n: Node<string>, m: set<string>, m': set<string>)
    requires forall t :: t in Atoms(n) ==> (t in m <==> t in m')
    ensures Eval(n, m) <==> Eval(n, m')
  {
    match n
    case Atom(_) =>
    case Not(c) => EvalAgrees(c, m, m');
    case And(l, r) => EvalAgrees(l, m, m'); EvalAgrees(r, m, m');
    case Or(l, r) => EvalAgrees(l, m, m'); EvalAgrees(r, m, m');
  }

  /** A compiled condition refers to readable names only. */
  lemma CompiledNamesAreReadable(names: seq<string>, condition: string)
    requires CompileText(names, condition).Some?
    ensures forall n :: n in Atoms(CompileText(names, condition).value) ==> n in names && IsReadable(n)
  {
    var tokens := Tokenize(ExpandText(names, condition, true).text);
    ParsedNamesAreKnown(NameSet(names), tokens);
    TokensAreWords(ExpandText(names, condition, true).text, "");
  }

  /** The condition `1 of them` compiles and means "some selection". */
  ghost predicate SomeOfThemWorks(names: seq<string>) {
    var c := CompileText(names, "1 of them");
    c.Some? && forall matched :: Eval(c.value, matched) <==> exists n :: n in names && n in matched
  }

  lemma MatchSomeOfThem()
    ensures MatchHere("1 of them") == Match("1", "of", "them", 9)
  {
    hide MatchHere;
    assert Lower("of") == "of" && Lower("them") == "them";
    assert StartsWithThem("them") by {
      assert "them"[..4] == "them";
    }
    MatchOf("1", " ", "of", " ", "them");
    assert "1" + (" " + ("of" + (" " + "them"))) == "1 of them" && "them"[..4] == "them";
  }

  lemma LexSomeOfThem()
    ensures LexText("1 of them", true, "") == [Quantifier("1", "of", "them")]
  {
    hide MatchHere, IsSpace, IsWordChar;
    MatchSomeOfThem();
    assert "1 of them"[9..] == "" && LexText("", !IsWordChar("1 of them"[8]), "") == [];
  }

  /** Quantifiers mean what they say exactly when every name is readable. */
  lemma SomeOfThemExactly(names: seq<string>)
    requires names != []
    ensures SomeOfThemWorks(names) <==> AllReadable(names)
  {
    hide ExpandText, LexText, IsReadable, CompileText;
    var s, t := "1 of them", Quantifier("1", "of", "them");
    LexSomeOfThem();
    assert Lower("them") == "them";
    assert forall n :: Matches("them", n);
    if AllReadable(names) {
      ExpansionPreservesMeaning(names, s);
      var o := OrOne(AndOne(Leaf(t)));
      assert names[0] in names;
      assert YieldOr(o) == [t] && OrNode(o) == Atom(t);
      assert Reads(names, s, o);
      assert Lower("1") == "1";
      assert forall matched :: Meaning(Atom(t), names, matched) <==> exists n :: n in names && n in matched;
    }
    if SomeOfThemWorks(names) {
      var node := CompileText(names, s).value;
      CompiledNamesAreReadable(names, s);
      forall n | n in names
        ensures IsReadable(n)
      {
        if !IsReadable(n) {
          assert Eval(node, {n}) && !Eval(node, {}) by {
            assert n in {n};
          }
          EvalAgrees(node, {}, {n});
        }
      }
    }
  }

  lemma {:induction false} HasAtom(n: Node<string>)
    ensures Atoms(n) != {}
  {
    match n
    case Atom(t) => assert t in Atoms(n);
    case Not(c) => HasAtom(c);
    case And(l, _) => HasAtom(l);
    case Or(l, _) => HasAtom(l);
  }

  /** A rule none of whose selections has a readable name has no condition that compiles. */
  lemma UnreadableNamesNeverCompile(names: seq<string>, condition: string)
    requires forall n :: n in names ==> !IsReadable(n)
    ensures CompileText(names, condition) == None
  {
    hide CompileText, IsReadable;
    if CompileText(names, condition).Some? {
      HasAtom(CompileText(names, condition).value);
      CompiledNamesAreReadable(names, condition);
    }
  }

  /** A name with a blank: the quantifier selects it, and its expansion falls apart into two unknown names. */
  lemma NameWithBlank()
    ensures !IsReadable("a b") && Matches("a*", "a b") && CompileText(["a b"], "1 of a*") == None
  {
    assert "a b"[1] in "a b" && IsSpace("a b"[1]);
    assert Glob("*", " b") by {
      assert "*"[1..] == "" && " b"[1..] == "b" && "b"[1..] == "";
      assert Glob("", "") && Glob("*", "");
      assert Glob("*", "b");
    }
    assert Lower("a*") == "a*" && Lower("a b") == "a b";
    assert "a*"[1..] == "*" && "a b"[1..] == " b";
    UnreadableNamesNeverCompile(["a b"], "1 of a*");
  }
}
