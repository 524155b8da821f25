/**
 Sigma conditions: tokenizing, parsing and evaluation.

 The parser is the class of the source, proved equal to the grammar's parser.
 */
module Sigma {
  import opened Text
  import opened Grammar = BooleanGrammar

  function SigmaLexicon(selections: set<string>): Lexicon<string> {
    Lexicon(
      s => EqualFold(s, "or"), s => EqualFold(s, "and"), s => EqualFold(s, "not"),
      s => EqualFold(s, "("), s => EqualFold(s, ")"), s => s in selections)
  }

  const SIGMA_WORDS := Words("or", "and", "not", "(", ")")

  /** A name the parser can meet as a selection: not the prefix operator, not an opening parenthesis. */
  predicate IsMentionable(name: string) {
    !EqualFold(name, "not") && !EqualFold(name, "(")
  }

  // ----- the parser -----

  class ConditionParser {
    const tokens: seq<string>
    const selections: set<string>
    var position: nat

    constructor (tokens: seq<string>, selections: set<string>)
      ensures this.tokens == tokens && this.selections == selections && position == 0
    {
      this.tokens, this.selections, position := tokens, selections, 0;
    }

    ghost function Rest(): seq<string>
      requires position <= |tokens|
      reads this`position
    {
      tokens[position..]
    }

    /** The parser has done what the grammar's step says. */
    ghost predicate Did(step: Step<string>, r: Parsed<string>)
      reads this`position
    {
      position <= |tokens| &&
      match step
      case Fail(e) => r == Failure(e)
      case Ok(node, rest) => r == Success(node) && Rest() == rest
    }

    predicate Peek(value: string)
      reads this`position
    {
      position < |tokens| && EqualFold(tokens[position], value)
    }

    method ParseOr() returns (r: Parsed<string>)
      requires position <= |tokens|
      modifies this`position
      ensures Did(Grammar.ParseOr(SigmaLexicon(selections), old(Rest())), r)
      ensures r.Success? ==> position > old(position)
      decreases |tokens| - position, 3
    {
      hide Lower, Grammar.ParseAnd;
      ghost var lex, whole := SigmaLexicon(selections), Grammar.ParseOr(SigmaLexicon(selections), Rest());
      r := ParseAnd();
      if r.Failure? {
        return;
      }
      var left := r.node;
      while Peek("or")
        invariant old(position) < position <= |tokens|
        invariant whole == OrLoop(lex, left, Rest())
        decreases |tokens| - position
      {
        assert Rest()[1..] == tokens[position + 1..];
        position := position + 1;
        r := ParseAnd();
        if r.Failure? {
          return;
        }
        left := Or(left, r.node);
      }
      return Success(left);
    }

    method ParseAnd() returns (r: Parsed<string>)
      requires position <= |tokens|
      modifies this`position
      ensures Did(Grammar.ParseAnd(SigmaLexicon(selections), old(Rest())), r)
      ensures r.Success? ==> position > old(position)
      decreases |tokens| - position, 2
    {
      hide Lower, Grammar.ParseUnary;
      ghost var lex, whole := SigmaLexicon(selections), Grammar.ParseAnd(SigmaLexicon(selections), Rest());
      r := ParseUnary();
      if r.Failure? {
        return;
      }
      var left := r.node;
      while Peek("and")
        invariant old(position) < position <= |tokens|
        invariant whole == AndLoop(lex, left, Rest())
        decreases |tokens| - position
      {
        assert Rest()[1..] == tokens[position + 1..];
        position := position + 1;
        r := ParseUnary();
        if r.Failure? {
          return;
        }
        left := And(left, r.node);
      }
      return Success(left);
    }

    method ParseUnary() returns (r: Parsed<string>)
      requires position <= |tokens|
      modifies this`position
      ensures Did(Grammar.ParseUnary(SigmaLexicon(selections), old(Rest())), r)
      ensures r.Success? ==> position > old(position)
      decreases |tokens| - position, 1
    {
      assert position < |tokens| ==> Rest()[0] == tokens[position] && Rest()[1..] == tokens[position + 1..];
      if Peek("not") {
        position := position + 1;
        r := ParseUnary();
        if r.Success? {
          r := Success(Not(r.node));
        }
        return;
      }
      if Peek("(") {
        position := position + 1;
        r := ParseOr();
        if r.Failure? {
          return;
        }
        if !Peek(")") {
          return Failure(MissingClose);
        }
        position := position + 1;
        return;
      }
      if position >= |tokens| {
        return Failure(UnexpectedEnd);
      }
      var name := tokens[position];
      position := position + 1;
      if name !in selections {
        return Failure(Unknown(name));
      }
      return Success(Atom(name));
    }
  }

  method ParseCondition(tokens: seq<string>, selections: set<string>) returns (r: Parsed<string>)
    ensures r == Parse(SigmaLexicon(selections), tokens)
  {
    var parser := new ConditionParser(tokens, selections);
    if |tokens| == 0 {
      return Failure(Empty);
    }
    assert parser.Rest() == tokens;
    r := parser.ParseOr();
    if r.Success? && parser.position != |tokens| {
      r := Failure(Trailing(tokens[parser.position]));
    }
  }

  /** A condition tree survives printing and parsing exactly when its names are known and can be mentioned. */
  lemma ConditionRoundTrip(selections: set<string>, node: Node<string>)
    ensures Parse(SigmaLexicon(selections), Print(SIGMA_WORDS, node)) == Success(node) <==>
            forall n :: n in Atoms(node) ==> n in selections && IsMentionable(n)
  {
    var lex := SigmaLexicon(selections);
    if forall n :: n in Atoms(node) ==> n in selections && IsMentionable(n) {
      RoundTrip(lex, SIGMA_WORDS, node);
    }
    if Parse(lex, Print(SIGMA_WORDS, node)) == Success(node) {
      ParsedAtoms(lex, Print(SIGMA_WORDS, node));
    }
  }

  /** The parser accepts exactly the grammar's sentences. */
  lemma ConditionParsedExactly(selections: set<string>, tokens: seq<string>, node: Node<string>)
    ensures Parse(SigmaLexicon(selections), tokens) == Success(node) <==>
            exists o :: ValidOr(SigmaLexicon(selections), o) && YieldOr(o) == tokens && OrNode(o) == node
  {
    ParseExactly(SigmaLexicon(selections), tokens, node);
  }

  lemma ParsedNamesAreKnown(selections: set<string>, tokens: seq<string>)
    requires Parse(SigmaLexicon(selections), tokens).Success?
    ensures forall n :: n in Atoms(Parse(SigmaLexicon(selections), tokens).node) ==>
              n in selections && IsMentionable(n) && n in tokens
  {
    ParsedAtoms(SigmaLexicon(selections), tokens);
  }

  // ----- evaluation -----

  /** Evaluation, given the selections that match the event. */
  predicate Eval(n: Node<string>, matched: set<string>) {
    match n
    case Atom(name) => name in matched
    case Not(c) => !Eval(c, matched)
    case And(l, r) => Eval(l, matched) && Eval(r, matched)
    case Or(l, r) => Eval(l, matched) || Eval(r, matched)
  }

  // ----- tokenizing -----

  function Flush(word: string): seq<string> {
    if word == "" then [] else [word]
  }

  /** Splits at white space and around parentheses. */
  function Tokenize(s: string, word: string := ""): seq<string>
    decreases s
  {
    if s == "" then Flush(word)
    else if IsSpace(s[0]) then Flush(word) + Tokenize(s[1..])
    else if s[0] == '(' || s[0] == ')' then Flush(word) + [[s[0]]] + Tokenize(s[1..])
    else Tokenize(s[1..], word + [s[0]])
  }

  /** Text that the tokenizer does not split. */
  predicate IsUnbroken(w: string) {
    forall c :: c in w ==> !IsSpace(c) && c != '(' && c != ')'
  }

  /** A token the tokenizer can produce. */
  predicate IsWord(w: string) {
    w == "(" || w == ")" || (w != "" && IsUnbroken(w))
  }

  function Render(tokens: seq<string>): string {
    if tokens == [] then "" else tokens[0] + " " + Render(tokens[1..])
  }

  lemma {:induction false} TokenizeWord(w: string, rest: string, word: string)
    requires IsUnbroken(w)
    ensures Tokenize(w + rest, word) == Tokenize(rest, word + w)
  {
    if w == "" {
      assert w + rest == rest && word + w == word;
    } else {
      assert (w + rest)[1..] == w[1..] + rest;
      TokenizeWord(w[1..], rest, word + [w[0]]);
      assert word + [w[0]] + w[1..] == word + w;
    }
  }

  /** Rendered tokens are read back unchanged. */
  lemma {:induction false} TokenizeRender(tokens: seq<string>)
    requires forall t :: t in tokens ==> IsWord(t)
    ensures Tokenize(Render(tokens)) == tokens
  {
    if tokens != [] {
      var w, rest := tokens[0], Render(tokens[1..]);
      assert IsWord(w) && tokens == [w] + tokens[1..];
      TokenizeRender(tokens[1..]);
      assert Render(tokens) == w + (" " + rest);
      assert (" " + rest)[1..] == rest;
      if w == "(" || w == ")" {
        assert Render(tokens)[1..] == " " + rest;
        assert Tokenize(Render(tokens)) == Flush("") + [w] + Tokenize(" " + rest);
      } else {
        TokenizeWord(w, " " + rest, "");
        assert "" + w == w;
      }
      assert Tokenize(" " + rest) == Flush("") + Tokenize(rest);
    }
  }

  lemma {:induction false} TokensAreWords(s: string, word: string)
    requires IsUnbroken(word)
    ensures forall t :: t in Tokenize(s, word) ==> IsWord(t)
  {
    if s != "" {
      if IsSpace(s[0]) || s[0] == '(' || s[0] == ')' {
        TokensAreWords(s[1..], "");
        assert IsSpace(s[0]) || IsWord([s[0]]);
      } else {
        TokensAreWords(s[1..], word + [s[0]]);
      }
    }
  }

  /** The round trip on text: exactly when the names are also words that tokenizing keeps whole. */
  lemma TextRoundTrip(selections: set<string>, node: Node<string>)
    ensures Parse(SigmaLexicon(selections), Tokenize(Render(Print(SIGMA_WORDS, node)))) == Success(node) <==>
            forall n :: n in Atoms(node) ==> n in selections && IsMentionable(n) && IsWord(n)
  {
    var lex, text := SigmaLexicon(selections), Render(Print(SIGMA_WORDS, node));
    if forall n :: n in Atoms(node) ==> n in selections && IsMentionable(n) && IsWord(n) {
      PrinterDerives(lex, SIGMA_WORDS, node);
      YieldWordsOr(selections, ToOr(SIGMA_WORDS, node));
      TokenizeRender(Print(SIGMA_WORDS, node));
      ConditionRoundTrip(selections, node);
    }
    if Parse(lex, Tokenize(text)) == Success(node) {
      ParsedAtoms(lex, Tokenize(text));
      TokensAreWords(text, "");
    }
  }

  lemma KeywordIsWord(t: string)
    requires EqualFold(t, "or") || EqualFold(t, "and") || EqualFold(t, "not") || EqualFold(t, "(") || EqualFold(t, ")")
    ensures IsWord(t)
  {
    forall c | c in t
      ensures !IsSpace(c) && (|t| > 1 ==> c != '(' && c != ')')
    {
      var i :| 0 <= i < |t| && t[i] == c;
      assert Lower(t)[i] == LowerChar(c);
    }
    if |t| == 1 {
      assert Lower(t)[0] == LowerChar(t[0]);
      assert t == [t[0]];
    }
  }

  lemma {:induction false} YieldWordsOr(selections: set<string>, o: OrTree<string>)
    requires ValidOr(SigmaLexicon(selections), o) && forall n :: n in Atoms(OrNode(o)) ==> IsWord(n)
    ensures forall t :: t in YieldOr(o) ==> IsWord(t)
  {
    match o
    case OrOne(a) => YieldWordsAnd(selections, a);
    case OrMore(l, op, r) => YieldWordsOr(selections, l); KeywordIsWord(op); YieldWordsAnd(selections, r);
  }

  lemma {:induction false} YieldWordsAnd(selections: set<string>, a: AndTree<string>)
    requires ValidAnd(SigmaLexicon(selections), a) && forall n :: n in Atoms(AndNode(a)) ==> IsWord(n)
    ensures forall t :: t in YieldAnd(a) ==> IsWord(t)
  {
    match a
    case AndOne(u) => YieldWordsUnary(selections, u);
    case AndMore(l, op, r) => YieldWordsAnd(selections, l); KeywordIsWord(op); YieldWordsUnary(selections, r);
  }

  lemma {:induction false} YieldWordsUnary(selections: set<string>, u: UnaryTree<string>)
    requires ValidUnary(SigmaLexicon(selections), u) && forall n :: n in Atoms(UnaryNode(u)) ==> IsWord(n)
    ensures forall t :: t in YieldUnary(u) ==> IsWord(t)
  {
    match u
    case Leaf(_) =>
    case Negation(op, c) => KeywordIsWord(op); YieldWordsUnary(selections, c);
    case Group(o, inner, c) => KeywordIsWord(o); YieldWordsOr(selections, inner); KeywordIsWord(c);
  }
}
