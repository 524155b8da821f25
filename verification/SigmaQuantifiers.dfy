/**
 Quantifier expansion: every `1 of P` and `all of P` in the text of a condition
 is replaced by a parenthesised chain of the selection names that P matches.

 `ExpandText` is the left-to-right rewriting by the quantifier expression,
 `LexText` the same reading of the text as a list of terms, and the expanded
 text is proved to tokenize to the words of those terms.
 */
module SigmaQuantifiers {
  import opened Text
  import opened Sigma

  // ----- pattern matching -----

  /** Shell matching restricted to the characters a pattern can hold: `*` spans anything but a slash. */
  predicate Glob(p: string, s: string)
    decreases |p| + |s|
  {
    if p == "" then s == ""
    else if p[0] == '*' then Glob(p[1..], s) || (s != "" && s[0] != '/' && Glob(p, s[1..]))
    else s != "" && s[0] == p[0] && Glob(p[1..], s[1..])
  }

  /** The two letters beyond ASCII are those that fold to `s` and `k`. */
  predicate IsPatternChar(c: char) {
    'a' <= c <= 'z' || 'A' <= c <= 'Z' || '0' <= c <= '9' || c in "_.*-" || c == '\U{17F}' || c == '\U{212A}'
  }

  predicate Matches(p: string, name: string) {
    EqualFold(p, "them") || Glob(Lower(p), Lower(name))
  }

  function Selected(names: seq<string>, p: string): (r: seq<string>)
    ensures forall n :: n in r <==> n in names && Matches(p, n)
  {
    if names == [] then []
    else
      assert names == [names[0]] + names[1..];
      (if Matches(p, names[0]) then [names[0]] else []) + Selected(names[1..], p)
  }

  lemma {:induction false} AllSelected(names: seq<string>, p: string)
    requires EqualFold(p, "them")
    ensures Selected(names, p) == names
  {
    if names != [] {
      AllSelected(names[1..], p);
    }
  }

  /** One more name is selected behind the others, so order and repetitions are kept. */
  lemma {:induction false} SelectedAppend(names: seq<string>, p: string, name: string)
    ensures Selected([], p) == []
    ensures Selected(names + [name], p) == Selected(names, p) + (if Matches(p, name) then [name] else [])
  {
    hide Matches;
    if names == [] {
      assert names + [name] == [name];
    } else {
      assert (names + [name])[1..] == names[1..] + [name];
      SelectedAppend(names[1..], p, name);
    }
  }

  /** The loop that collects the names a pattern selects. */
  method SelectNames(names: seq<string>, p: string) returns (selected: seq<string>)
    ensures selected == Selected(names, p)
  {
    hide Matches, EqualFold, Lower;
    if EqualFold(p, "them") {
      AllSelected(names, p);
      return names;
    }
    selected := [];
    assert names[0..] == names;
    for i := 0 to |names|
      invariant selected + Selected(names[i..], p) == Selected(names, p)
    {
      if Matches(p, names[i]) {
        selected := selected + [names[i]];
      }
    }
  }

  // ----- the quantifier expression -----

  /** White space as the expression knows it, a part of what the tokenizer splits at. */
  predicate IsBlank(c: char) {
    c == ' ' || c == '\t' || c == '\n' || c == '\r' || c as int == 0x0C
  }

  /** A word boundary stands before a count when no such character precedes it. */
  predicate IsWordChar(c: char) {
    'a' <= c <= 'z' || 'A' <= c <= 'Z' || '0' <= c <= '9' || c == '_'
  }

  function Blanks(s: string): (n: nat)
    ensures n <= |s| && (forall i :: 0 <= i < n ==> IsBlank(s[i])) && (n < |s| ==> !IsBlank(s[n]))
  {
    if s == "" || !IsBlank(s[0]) then 0 else 1 + Blanks(s[1..])
  }

  function PatternRun(s: string): (n: nat)
    ensures n <= |s| && (forall i :: 0 <= i < n ==> IsPatternChar(s[i])) && (n < |s| ==> !IsPatternChar(s[n]))
  {
    if s == "" || !IsPatternChar(s[0]) then 0 else 1 + PatternRun(s[1..])
  }

  predicate StartsWithThem(s: string) {
    |s| >= 4 && EqualFold(s[..4], "them")
  }

  /** The keyword `them` is tried first; otherwise as many pattern characters as there are. */
  function PatternLength(s: string): (n: nat)
    ensures n <= |s|
  {
    if StartsWithThem(s) then 4 else PatternRun(s)
  }

  function CountLength(s: string): (n: nat)
    ensures n <= |s|
  {
    if s != "" && s[0] == '1' then 1
    else if |s| >= 3 && EqualFold(s[..3], "all") then 3
    else 0
  }

  datatype Match = Match(count: string, of: string, pattern: string, length: nat) | NoMatch

  /** The expression matched at the start of some text, the word boundary aside. */
  function MatchHere(s: string): (m: Match)
    ensures m.Match? ==> 0 < m.length <= |s|
  {
    var n := CountLength(s);
    var a := n + Blanks(s[n..]);
    if n == 0 || a == n || |s| < a + 2 || !EqualFold(s[a..a + 2], "of") then NoMatch
    else
      var b := a + 2 + Blanks(s[a + 2..]);
      var k := PatternLength(s[b..]);
      if b == a + 2 || k == 0 then NoMatch
      else Match(s[..n], s[a..a + 2], s[b..b + k], b + k)
  }

  predicate IsCount(s: string) {
    s == "1" || EqualFold(s, "all")
  }

  predicate IsGap(s: string) {
    s != "" && forall c :: c in s ==> IsBlank(c)
  }

  lemma {:induction false} BlanksOfGap(gap: string, rest: string)
    requires (forall c :: c in gap ==> IsBlank(c)) && (rest != "" ==> !IsBlank(rest[0]))
    ensures Blanks(gap + rest) == |gap|
  {
    if gap == "" {
      assert gap + rest == rest;
    } else {
      assert (gap + rest)[1..] == gap[1..] + rest;
      BlanksOfGap(gap[1..], rest);
    }
  }

  lemma FoldedHead(w: string, keyword: string, k: nat)
    requires EqualFold(w, keyword) && k < |keyword|
    ensures |w| == |keyword| && LowerChar(w[k]) == keyword[k]
  {
    assert Lower(w)[k] == LowerChar(w[k]);
  }

  lemma CountOf(count: string, rest: string)
    requires IsCount(count)
    ensures CountLength(count + rest) == |count| > 0 && IsWordChar(count[0])
  {
    assert (count + rest)[..|count|] == count;
    if count != "1" {
      FoldedHead(count, "all", 0);
    }
  }

  /** A pattern starts with a pattern character, never with white space. */
  lemma PatternHead(s: string)
    requires PatternLength(s) > 0
    ensures s != "" && IsPatternChar(s[0]) && !IsBlank(s[0])
  {
    if StartsWithThem(s) {
      FoldedHead(s[..4], "them", 0);
    } else {
      assert s[0] in s[..PatternRun(s)];
    }
  }

  lemma BlanksBetween(s: string, n: nat, a: nat)
    requires n <= a < |s| && IsGap(s[n..a]) && !IsBlank(s[a])
    ensures Blanks(s[n..]) == a - n
  {
    assert s[n..] == s[n..a] + s[a..];
    BlanksOfGap(s[n..a], s[a..]);
  }

  lemma MatchByOffsets(s: string, n: nat, a: nat, b: nat, k: nat)
    requires 0 < n < a && a + 2 < b && b + k <= |s| && k > 0
    requires CountLength(s) == n && IsGap(s[n..a]) && EqualFold(s[a..a + 2], "of") && IsGap(s[a + 2..b])
    requires PatternLength(s[b..]) == k
    ensures MatchHere(s) == Match(s[..n], s[a..a + 2], s[b..b + k], b + k)
  {
    hide PatternLength, CountLength, EqualFold, Blanks, IsGap;
    FoldedHead(s[a..a + 2], "of", 0);
    assert s[a..a + 2][0] == s[a];
    PatternHead(s[b..]);
    assert s[b..][0] == s[b];
    BlanksBetween(s, n, a);
    BlanksBetween(s, a + 2, b);
  }

  lemma PasteFive(count: string, gap: string, of: string, gap2: string, rest: string)
    requires |of| == 2
    ensures var s, n, a := count + (gap + (of + (gap2 + rest))), |count|, |count| + |gap|;
            var b := a + 2 + |gap2|;
            && |s| == b + |rest| && s[..n] == count && s[n..a] == gap && s[a..a + 2] == of && s[a + 2..b] == gap2
            && s[b..] == rest && forall k :: 0 <= k <= |rest| ==> s[b..b + k] == rest[..k]
  {
  }

  /** What the expression matches. */
  lemma MatchOf(count: string, gap: string, of: string, gap2: string, rest: string)
    requires IsCount(count) && IsGap(gap) && EqualFold(of, "of") && IsGap(gap2) && PatternLength(rest) > 0
    ensures var k := PatternLength(rest);
            MatchHere(count + (gap + (of + (gap2 + rest)))) ==
              Match(count, of, rest[..k], |count| + |gap| + 2 + |gap2| + k)
  {
    hide PatternLength, CountLength, EqualFold, IsCount, MatchHere;
    var s, n, a := count + (gap + (of + (gap2 + rest))), |count|, |count| + |gap|;
    FoldedHead(of, "of", 0);
    CountOf(count, gap + (of + (gap2 + rest)));
    PasteFive(count, gap, of, gap2, rest);
    hide IsGap;
    MatchByOffsets(s, n, a, a + 2 + |gap2|, PatternLength(rest));
  }

  /** The match at the start of `s`, if a word boundary stands before it. */
  function MatchAt(s: string, boundary: bool): (m: Match)
    ensures m.Match? ==> 0 < m.length <= |s|
  {
    if boundary then MatchHere(s) else NoMatch
  }

  // ----- the rewriting -----

  datatype Expansion = Expanded(text: string) | NoSelection

  function Prepend(a: string, x: Expansion): Expansion {
    if x.Expanded? then Expanded(a + x.text) else NoSelection
  }

  /** The names joined by one operator. */
  function JoinText(names: seq<string>, op: string): string
    requires names != []
  {
    if |names| == 1 then names[0]
    else JoinText(names[..|names| - 1], op) + op + names[|names| - 1]
  }

  function GroupText(count: string, selected: seq<string>): string
    requires selected != []
  {
    "(" + JoinText(selected, if EqualFold(count, "all") then " and " else " or ") + ")"
  }

  /** What follows a match has a word boundary before it unless the match ends in a word character. */
  function ExpandText(names: seq<string>, s: string, boundary: bool): Expansion
    decreases |s|
  {
    if s == "" then Expanded("")
    else
      match MatchAt(s, boundary)
      case NoMatch => Prepend([s[0]], ExpandText(names, s[1..], !IsWordChar(s[0])))
      case Match(count, _, pattern, length) =>
        if Selected(names, pattern) == [] then NoSelection
        else Prepend(GroupText(count, Selected(names, pattern)), ExpandText(names, s[length..], !IsWordChar(s[length - 1])))
  }

  lemma ExpandStep(names: seq<string>, done: string, s: string, boundary: bool)
    requires s != ""
    ensures Prepend(done, ExpandText(names, s, boundary)) ==
            match MatchAt(s, boundary) {
              case NoMatch => Prepend(done + [s[0]], ExpandText(names, s[1..], !IsWordChar(s[0])))
              case Match(count, _, pattern, length) =>
                if Selected(names, pattern) == [] then NoSelection
                else Prepend(done + GroupText(count, Selected(names, pattern)),
                             ExpandText(names, s[length..], !IsWordChar(s[length - 1])))
            }
  {
    hide MatchAt, Selected, GroupText;
    match MatchAt(s, boundary)
    case NoMatch => PrependTwice(done, [s[0]], ExpandText(names, s[1..], !IsWordChar(s[0])));
    case Match(count, _, pattern, length) =>
      if Selected(names, pattern) != [] {
        PrependTwice(done, GroupText(count, Selected(names, pattern)), ExpandText(names, s[length..], !IsWordChar(s[length - 1])));
      }
  }

  lemma PrependTwice(a: string, b: string, x: Expansion)
    ensures Prepend(a, Prepend(b, x)) == Prepend(a + b, x)
  {
    if x.Expanded? {
      assert a + (b + x.text) == a + b + x.text;
    }
  }

  lemma ExpandEnd(names: seq<string>, boundary: bool)
    ensures ExpandText(names, "", boundary) == Expanded("")
  {
  }

  /** Replaces every quantifier from left to right; one without selections fails the condition. */
  method ExpandQuantifiers(names: seq<string>, condition: string) returns (r: Expansion)
    ensures r == ExpandText(names, condition, true)
  {
    hide ExpandText, MatchAt, Selected, GroupText;
    var position, boundary, failed := 0, true, false;
    var result := "";
    assert condition[0..] == condition;
    while position < |condition|
      invariant position <= |condition|
      invariant ExpandText(names, condition, true) ==
                if failed then NoSelection else Prepend(result, ExpandText(names, condition[position..], boundary))
    {
      ghost var rest := condition[position..];
      ExpandStep(names, result, rest, boundary);
      var found := MatchAt(condition[position..], boundary);
      if found.Match? {
        var selected := SelectNames(names, found.pattern);
        assert rest[found.length..] == condition[position + found.length..];
        if selected == [] {
          failed := true;
        } else {
          result := result + GroupText(found.count, selected);
        }
        position := position + found.length;
        boundary := !IsWordChar(condition[position - 1]);
      } else {
        assert rest[1..] == condition[position + 1..];
        result := result + [condition[position]];
        boundary := !IsWordChar(condition[position]);
        position := position + 1;
      }
    }
    ExpandEnd(names, boundary);
    assert condition[position..] == "" && result + "" == result;
    return if failed then NoSelection else Expanded(result);
  }

  // ----- the text as terms -----

  datatype Term = Word(text: string) | Quantifier(count: string, of: string, pattern: string)

  function FlushTerm(word: string): seq<Term> {
    if word == "" then [] else [Word(word)]
  }

  /** The words and quantifiers that the expression and the tokenizer see, `word` being read already. */
  function LexText(s: string, boundary: bool, word: string): seq<Term>
    decreases |s|
  {
    if s == "" then FlushTerm(word)
    else
      match MatchAt(s, boundary)
      case Match(count, of, pattern, length) =>
        FlushTerm(word) + [Quantifier(count, of, pattern)] + LexText(s[length..], !IsWordChar(s[length - 1]), "")
      case NoMatch =>
        if IsSpace(s[0]) then FlushTerm(word) + LexText(s[1..], !IsWordChar(s[0]), "")
        else if s[0] == '(' || s[0] == ')' then
          FlushTerm(word) + [Word([s[0]])] + LexText(s[1..], !IsWordChar(s[0]), "")
        else LexText(s[1..], !IsWordChar(s[0]), word + [s[0]])
  }

  /** What a term becomes. */
  function ImageOf(names: seq<string>, t: Term): seq<string> {
    match t
    case Word(w) => [w]
    case Quantifier(count, _, p) =>
      if Selected(names, p) == [] then [] else Tokenize(GroupText(count, Selected(names, p)))
  }

  function Image(names: seq<string>, ts: seq<Term>): seq<string> {
    if ts == [] then [] else ImageOf(names, ts[0]) + Image(names, ts[1..])
  }

  /** Every quantifier matches some selection. */
  ghost predicate AllSelective(names: seq<string>, ts: seq<Term>) {
    forall t :: t in ts && t.Quantifier? ==> exists n :: n in names && Matches(t.pattern, n)
  }

  lemma SelectiveTerm(names: seq<string>, p: string)
    ensures Selected(names, p) != [] <==> exists n :: n in names && Matches(p, n)
  {
    hide Matches;
    if Selected(names, p) != [] {
      assert Selected(names, p)[0] in Selected(names, p);
    }
  }

  lemma {:induction false} ImageAppend(names: seq<string>, a: seq<Term>, b: seq<Term>)
    ensures Image(names, a + b) == Image(names, a) + Image(names, b)
  {
    hide ImageOf;
    if a == [] {
      assert a + b == b;
    } else {
      assert (a + b)[1..] == a[1..] + b;
      ImageAppend(names, a[1..], b);
    }
  }

  lemma ImageOfFlush(names: seq<string>, word: string)
    ensures Image(names, FlushTerm(word)) == Flush(word)
  {
    if word != "" {
      ImageOne(names, Word(word));
    }
  }

  lemma ImageOne(names: seq<string>, t: Term)
    ensures Image(names, []) == [] && Image(names, [t]) == ImageOf(names, t)
  {
    assert [t][1..] == [];
  }

  /** Tokenizing starts afresh behind a closing parenthesis. */
  lemma {:induction false} TokenizeBehindClose(x: string, rest: string, word: string)
    ensures Tokenize(x + ")" + rest, word) == Tokenize(x + ")", word) + Tokenize(rest)
    decreases |x|
  {
    if x == "" {
      assert (x + ")" + rest)[1..] == rest && (x + ")")[1..] == "";
      assert Tokenize(x + ")", word) == Flush(word) + [")"] + Tokenize("");
    } else {
      assert (x + ")" + rest)[1..] == x[1..] + ")" + rest && (x + ")")[1..] == x[1..] + ")";
      TokenizeBehindClose(x[1..], rest, "");
      TokenizeBehindClose(x[1..], rest, word + [x[0]]);
      var first := if IsSpace(x[0]) then Flush(word) else Flush(word) + [[x[0]]];
      assert first + (Tokenize(x[1..] + ")") + Tokenize(rest)) == (first + Tokenize(x[1..] + ")")) + Tokenize(rest);
    }
  }

  lemma TokenizeOpen(x: string, word: string)
    ensures Tokenize("(" + x, word) == Flush(word) + ["("] + Tokenize(x)
  {
    assert ("(" + x)[1..] == x;
  }

  lemma TokenizeGroup(count: string, selected: seq<string>, rest: string, word: string)
    requires selected != []
    ensures Tokenize(GroupText(count, selected) + rest, word) == Flush(word) + Tokenize(GroupText(count, selected)) + Tokenize(rest)
  {
    hide Tokenize, JoinText, EqualFold;
    var x := JoinText(selected, if EqualFold(count, "all") then " and " else " or ");
    var group := GroupText(count, selected);
    assert group == "(" + (x + ")") && group + rest == "(" + (x + ")" + rest);
    TokenizeOpen(x + ")" + rest, word);
    TokenizeOpen(x + ")", "");
    TokenizeBehindClose(x, rest, "");
    assert Flush(word) + ["("] + (Tokenize(x + ")") + Tokenize(rest)) == Flush(word) + (["("] + Tokenize(x + ")")) + Tokenize(rest);
  }

  lemma SelectiveAppend(names: seq<string>, a: seq<Term>, b: seq<Term>)
    ensures AllSelective(names, a + b) <==> AllSelective(names, a) && AllSelective(names, b)
  {
    hide Matches;
    assert forall t :: t in a + b <==> t in a || t in b;
  }

  /** Expanding fails exactly when a quantifier matches nothing; otherwise the result tokenizes to the words of the terms. */
  lemma {:induction false} ExpandedWords(names: seq<string>, s: string, boundary: bool, word: string)
    ensures ExpandText(names, s, boundary).Expanded? <==> AllSelective(names, LexText(s, boundary, word))
    ensures ExpandText(names, s, boundary).Expanded? ==>
              Tokenize(ExpandText(names, s, boundary).text, word) == Image(names, LexText(s, boundary, word))
    decreases |s|
  {
    hide MatchAt, Matches, Selected, GroupText, Image, IsSpace, AllSelective;
    WordsAreSelective(names, FlushTerm(word));
    ImageOfFlush(names, word);
    if s != "" {
      match MatchAt(s, boundary)
      case Match(count, of, pattern, length) => ExpandedMatch(names, s, boundary, word);
      case NoMatch =>
        var c, later := s[0], !IsWordChar(s[0]);
        if IsSpace(c) || c == '(' || c == ')' {
          ExpandedWords(names, s[1..], later, "");
          ExpandedSeparator(names, s, boundary, word);
        } else {
          ExpandedWords(names, s[1..], later, word + [c]);
          var x := ExpandText(names, s[1..], later);
          if x.Expanded? {
            assert ([c] + x.text)[1..] == x.text;
          }
        }
    }
  }

  lemma ExpandedSeparator(names: seq<string>, s: string, boundary: bool, word: string)
    requires s != "" && MatchAt(s, boundary).NoMatch? && (IsSpace(s[0]) || s[0] == '(' || s[0] == ')')
    requires var later := !IsWordChar(s[0]);
             var x, ts := ExpandText(names, s[1..], later), LexText(s[1..], later, "");
             && (x.Expanded? <==> AllSelective(names, ts))
             && (x.Expanded? ==> Tokenize(x.text) == Image(names, ts))
    ensures ExpandText(names, s, boundary).Expanded? <==> AllSelective(names, LexText(s, boundary, word))
    ensures ExpandText(names, s, boundary).Expanded? ==>
              Tokenize(ExpandText(names, s, boundary).text, word) == Image(names, LexText(s, boundary, word))
  {
    hide MatchAt, Matches, Image, IsSpace, AllSelective, IsWordChar;
    var x, ts := ExpandText(names, s[1..], !IsWordChar(s[0])), LexText(s[1..], !IsWordChar(s[0]), "");
    var front := FlushTerm(word) + (if IsSpace(s[0]) then [] else [Word([s[0]])]);
    assert LexText(s, boundary, word) == front + ts;
    SelectiveAppend(names, front, ts);
    WordsAreSelective(names, front);
    ImageAppend(names, front, ts);
    ImageAppend(names, FlushTerm(word), if IsSpace(s[0]) then [] else [Word([s[0]])]);
    ImageOfFlush(names, word);
    ImageOne(names, Word([s[0]]));
    if x.Expanded? {
      assert ([s[0]] + x.text)[1..] == x.text;
    }
  }

  lemma WordsAreSelective(names: seq<string>, ts: seq<Term>)
    requires forall t :: t in ts ==> t.Word?
    ensures AllSelective(names, ts)
  {
  }

  lemma {:induction false} ExpandedMatch(names: seq<string>, s: string, boundary: bool, word: string)
    requires s != "" && MatchAt(s, boundary).Match?
    ensures ExpandText(names, s, boundary).Expanded? <==> AllSelective(names, LexText(s, boundary, word))
    ensures ExpandText(names, s, boundary).Expanded? ==>
              Tokenize(ExpandText(names, s, boundary).text, word) == Image(names, LexText(s, boundary, word))
    decreases |s|, 0
  {
    hide MatchAt, Matches, Selected, GroupText, Image, IsSpace, AllSelective, IsWordChar, Tokenize;
    var m := MatchAt(s, boundary);
    var later, t := !IsWordChar(s[m.length - 1]), Quantifier(m.count, m.of, m.pattern);
    var rest, x, ts := s[m.length..], ExpandText(names, s[m.length..], later), LexText(s[m.length..], later, "");
    ExpandedWords(names, rest, later, "");
    assert LexText(s, boundary, word) == FlushTerm(word) + [t] + ts;
    SelectiveAppend(names, FlushTerm(word) + [t], ts);
    SelectiveAppend(names, FlushTerm(word), [t]);
    WordsAreSelective(names, FlushTerm(word));
    SelectiveOne(names, t);
    SelectiveTerm(names, m.pattern);
    ImageAppend(names, FlushTerm(word) + [t], ts);
    ImageAppend(names, FlushTerm(word), [t]);
    ImageOfFlush(names, word);
    ImageOne(names, t);
    if Selected(names, m.pattern) != [] && x.Expanded? {
      TokenizeGroup(m.count, Selected(names, m.pattern), x.text, word);
    }
  }

  lemma SelectiveOne(names: seq<string>, t: Term)
    ensures AllSelective(names, [t]) <==> (t.Quantifier? ==> exists n :: n in names && Matches(t.pattern, n))
  {
    hide Matches;
  }
}
