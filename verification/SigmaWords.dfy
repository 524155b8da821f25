/**
 Conditions as their author writes them, in words: a quantifier is a count, `of`
 and a pattern word. The quantifier expression reads the text in the same way
 except that it takes `them` off the front of a longer pattern word; the module
 proves exactly which written conditions compile.
 */
module SigmaWords {
  import opened Options
  import opened Text
  import opened Grammar = BooleanGrammar
  import opened Sigma
  import opened SigmaQuantifiers
  import opened SigmaMeaning

  // ----- reading words instead of text -----

  /** Length of the count at the end of a word. */
  function SuffixLength(w: string): (n: nat)
    ensures n <= |w|
  {
    if w != "" && w[|w| - 1] == '1' then 1
    else if |w| >= 3 && EqualFold(w[|w| - 3..], "all") then 3
    else 0
  }

  predicate BoundaryAfter(front: string, glued: bool) {
    if front == "" then !glued else !IsWordChar(front[|front| - 1])
  }

  function Front(w: string): (r: string)
    ensures r <= w
  {
    w[..|w| - SuffixLength(w)]
  }

  /** A quantifier starts in the first word; `glued` says that a word character stands right before that word. */
  predicate Hit(ts: seq<string>, glued: bool) {
    && |ts| >= 3 && EqualFold(ts[1], "of") && PatternLength(ts[2]) > 0
    && SuffixLength(ts[0]) > 0 && BoundaryAfter(Front(ts[0]), glued)
  }

  function LexWords(ts: seq<string>, glued: bool): seq<Term>
    decreases |ts|
  {
    if ts == [] then []
    else if Hit(ts, glued) then
      var k := PatternLength(ts[2]);
      FlushTerm(Front(ts[0])) + [Quantifier(ts[0][|Front(ts[0])|..], ts[1], ts[2][..k])]
      + LexWords(Flush(ts[2][k..]) + ts[3..], k < |ts[2]| && IsWordChar(ts[2][k - 1]))
    else [Word(ts[0])] + LexWords(ts[1..], false)
  }

  /** All white space is of the kind the quantifier expression knows. */
  predicate IsRegular(s: string) {
    forall c :: c in s ==> IsSpace(c) ==> IsBlank(c)
  }

  predicate IsSeparator(c: char) {
    IsSpace(c) || c == '(' || c == ')'
  }

  /** Length of the leading part that belongs to one word. */
  function Run(s: string): (n: nat)
    ensures n <= |s| && (forall i :: 0 <= i < n ==> !IsSeparator(s[i])) && (n < |s| ==> IsSeparator(s[n]))
  {
    if s == "" || IsSeparator(s[0]) then 0 else 1 + Run(s[1..])
  }

  lemma TokenizeRun(s: string, word: string)
    ensures Tokenize(s, word) == Tokenize(s[Run(s)..], word + s[..Run(s)])
    ensures Tokenize(s, word) == Flush(word + s[..Run(s)]) + Tokenize(s[Run(s)..])
  {
    hide Run;
    var n := Run(s);
    assert s == s[..n] + s[n..];
    TokenizeWord(s[..n], s[n..], word);
    if n < |s| {
      assert Flush("") == [];
    }
  }

  lemma {:induction false} SkipGap(gap: string, rest: string, word: string)
    requires IsGap(gap)
    ensures Tokenize(gap + rest, word) == Flush(word) + Tokenize(rest)
  {
    assert gap[0] in gap && (gap + rest)[0] == gap[0] && (gap + rest)[1..] == gap[1..] + rest;
    assert Tokenize(gap + rest, word) == Flush(word) + Tokenize(gap[1..] + rest);
    if |gap| > 1 {
      SkipGap(gap[1..], rest, "");
      assert Flush("") + Tokenize(rest) == Tokenize(rest);
    } else {
      assert gap[1..] + rest == rest;
    }
  }

  lemma FoldedIsUnbroken(w: string, keyword: string)
    requires EqualFold(w, keyword) && forall c :: c in keyword ==> 'a' <= c <= 'z'
    ensures forall c :: c in w ==> IsPatternChar(c)
    ensures IsUnbroken(w)
  {
    forall c | c in w
      ensures IsPatternChar(c)
    {
      var i :| 0 <= i < |w| && w[i] == c;
      FoldedHead(w, keyword, i);
      assert keyword[i] in keyword;
    }
  }

  lemma PatternOf(s: string)
    ensures var p := s[..PatternLength(s)]; forall c :: c in p ==> IsPatternChar(c)
    ensures IsUnbroken(s[..PatternLength(s)])
  {
    if StartsWithThem(s) {
      FoldedIsUnbroken(s[..4], "them");
    }
  }

  /** The pattern is also what the expression finds at the start of its whole word. */
  lemma PatternOfWord(s: string, n: nat)
    requires PatternLength(s) <= n <= |s|
    ensures PatternLength(s[..n]) == PatternLength(s)
  {
    hide EqualFold;
    if n >= 4 {
      assert s[..n][..4] == s[..4];
    }
  }

  // ----- the words a match covers, and the match the words show -----

  /** Where the parts of a match begin and end. */
  lemma MatchOffsets(s: string) returns (n: nat, a: nat, b: nat, k: nat)
    requires MatchHere(s).Match?
    ensures 0 < n < a && a + 2 < b && b + k <= |s| && k > 0
    ensures n == CountLength(s) && IsGap(s[n..a]) && EqualFold(s[a..a + 2], "of") && IsGap(s[a + 2..b])
    ensures k == PatternLength(s[b..])
    ensures MatchHere(s) == Match(s[..n], s[a..a + 2], s[b..b + k], b + k)
  {
    hide PatternLength, EqualFold, Blanks, CountLength;
    n := CountLength(s);
    a := n + Blanks(s[n..]);
    b := a + 2 + Blanks(s[a + 2..]);
    k := PatternLength(s[b..]);
    GapOf(s, n);
    GapOf(s, a + 2);
  }

  lemma CountIsCount(s: string)
    requires CountLength(s) > 0
    ensures IsCount(s[..CountLength(s)])
  {
  }

  lemma CutFive(s: string, n: nat, a: nat, b: nat)
    requires n <= a && a + 2 <= b <= |s|
    ensures s == s[..n] + (s[n..a] + (s[a..a + 2] + (s[a + 2..b] + s[b..])))
  {
    assert s[a + 2..b] + s[b..] == s[a + 2..] && s[a..a + 2] + s[a + 2..] == s[a..] && s[n..a] + s[a..] == s[n..];
  }

  lemma GapOf(s: string, n: nat)
    requires n <= |s| && Blanks(s[n..]) > 0
    ensures IsGap(s[n..n + Blanks(s[n..])])
  {
    assert s[n..][..Blanks(s[n..])] == s[n..n + Blanks(s[n..])];
  }

  /** The pieces of a match. */
  /** The text from a match on: count, gap, keyword, gap, and the rest, which starts with the pattern. */
  ghost predicate Pieces(s: string, gap: string, gap2: string, rest: string)
    requires MatchHere(s).Match?
  {
    var m := MatchHere(s);
    && IsCount(m.count) && IsGap(gap) && EqualFold(m.of, "of") && IsGap(gap2) && PatternLength(rest) > 0
    && m.pattern == rest[..PatternLength(rest)]
    && s == m.count + (gap + (m.of + (gap2 + rest)))
    && s[m.length..] == rest[PatternLength(rest)..]
  }

  lemma MatchPieces(s: string)
    requires MatchHere(s).Match?
    ensures exists gap, gap2, rest :: Pieces(s, gap, gap2, rest)
  {
    hide PatternLength, EqualFold, MatchHere, CountLength, IsCount, IsGap;
    var n, a, b, k := MatchOffsets(s);
    CountIsCount(s);
    CutFive(s, n, a, b);
    assert s[b..][..k] == s[b..b + k] && s[b..][k..] == s[b + k..];
    assert Pieces(s, s[n..a], s[a + 2..b], s[b..]);
  }

  lemma MatchTokens(s: string, word: string)
    requires MatchHere(s).Match? && IsUnbroken(word)
    ensures var m := MatchHere(s);
            && Tokenize(s, word) == [word + m.count, m.of] + Tokenize(s[m.length..], m.pattern)
            && IsCount(m.count) && EqualFold(m.of, "of") && m.pattern != "" && IsUnbroken(m.pattern)
            && PatternLength(m.pattern + s[m.length..][..Run(s[m.length..])]) == |m.pattern|
  {
    hide MatchHere, PatternLength, Tokenize, Run, IsUnbroken, IsCount, EqualFold;
    MatchPieces(s);
    var gap, gap2, rest :| Pieces(s, gap, gap2, rest);
    var m, k := MatchHere(s), PatternLength(rest);
    CountIsUnbroken(m.count);
    FoldedIsUnbroken(m.of, "of");
    FoldedHead(m.of, "of", 0);
    PatternOf(rest);
    TokenizeWord(m.count, gap + (m.of + (gap2 + rest)), word);
    SkipGap(gap, m.of + (gap2 + rest), word + m.count);
    TokenizeWord(m.of, gap2 + rest, "");
    assert "" + m.of == m.of;
    SkipGap(gap2, rest, m.of);
    assert rest == rest[..k] + rest[k..];
    TokenizeWord(rest[..k], rest[k..], "");
    assert "" + rest[..k] == rest[..k];
    var n := k + Run(rest[k..]);
    assert m.pattern + rest[k..][..Run(rest[k..])] == rest[..n];
    PatternOfWord(rest, n);
    CountOf(m.count, "");
  }

  lemma CountIsUnbroken(count: string)
    requires IsCount(count)
    ensures IsUnbroken(count)
  {
    if count == "1" {
      assert IsUnbroken("1");
    } else {
      FoldedIsUnbroken(count, "all");
    }
  }

  /** A text that starts inside a word: the rest of that word, and what follows. */
  ghost predicate StartsWith(s: string, word: string, w: string, tail: string) {
    && s == w + tail && w != "" && Tokenize(s, word) == [word + w] + Tokenize(tail)
    && IsRegular(tail) && (tail != "" ==> IsSeparator(tail[0]))
  }

  lemma FirstWord(s: string, word: string)
    requires IsRegular(s) && s != "" && !IsSeparator(s[0])
    ensures exists w, tail :: StartsWith(s, word, w, tail)
  {
    hide IsSeparator, IsUnbroken;
    var n := Run(s);
    TokenizeRun(s, word);
    assert s == s[..n] + s[n..];
    assert StartsWith(s, word, s[..n], s[n..]);
  }

  /** Behind the end of a word the next word starts after a gap. */
  ghost predicate ContinuesWith(s: string, gap: string, w: string, tail: string) {
    && IsGap(gap) && s == gap + (w + tail) && Tokenize(s) == [w] + Tokenize(tail)
    && IsRegular(tail) && (tail != "" ==> IsSeparator(tail[0]))
  }

  lemma NextWord(s: string)
    requires IsRegular(s) && (s != "" ==> IsSeparator(s[0]))
    requires Tokenize(s) != [] && Tokenize(s)[0] != "(" && Tokenize(s)[0] != ")"
    ensures exists gap, w, tail :: ContinuesWith(s, gap, w, tail)
  {
    var n := Blanks(s);
    var gap := s[..n];
    var rest := s[n..];
    assert s == gap + rest;
    SkipGap(gap, rest, "");
    assert Tokenize(s) == Tokenize(rest);
    assert rest != "" && rest[0] in s;
    FirstWord(rest, "");
    var w, tail :| StartsWith(rest, "", w, tail);
    assert "" + w == w;
    assert ContinuesWith(s, gap, w, tail);
  }

  lemma SuffixIsCount(w: string)
    requires SuffixLength(w) > 0
    ensures IsCount(w[|w| - SuffixLength(w)..])
  {
  }

  lemma SuffixOf(front: string, count: string)
    requires IsCount(count)
    ensures SuffixLength(front + count) == |count| && Front(front + count) == front
  {
    var w := front + count;
    if count != "1" {
      FoldedHead(count, "all", 2);
      assert w[|w| - 1] == count[2] && w[|w| - 3..] == count;
    }
  }

  /** A quantifier in the words, its count starting where `s` does, is a match of the expression. */
  lemma HitMatches(s: string, word: string, glued: bool)
    requires s != "" && !IsSeparator(s[0]) && IsRegular(s) && IsUnbroken(word)
    requires Hit(Tokenize(s, word), glued) && Front(Tokenize(s, word)[0]) == word
    ensures MatchHere(s).Match?
  {
    hide MatchHere, Tokenize, PatternLength, EqualFold, IsRegular, IsUnbroken, SuffixLength, IsSeparator, BoundaryAfter, IsCount, IsGap;
    var ts := Tokenize(s, word);
    FirstWord(s, word);
    var count, fromGap :| StartsWith(s, word, count, fromGap);
    SuffixIsCount(ts[0]);
    assert ts[0] == word + count && count == ts[0][|word|..];
    NotParenthesis(ts[1]);
    assert Tokenize(fromGap) == ts[1..];
    NextWord(fromGap);
    var gap, of, fromGap2 :| ContinuesWith(fromGap, gap, of, fromGap2);
    assert ts[1] == of && Tokenize(fromGap2) == ts[2..];
    NotParenthesis(ts[2]);
    NextWord(fromGap2);
    var gap2, pattern, rest :| ContinuesWith(fromGap2, gap2, pattern, rest);
    assert ts[2] == pattern;
    PatternOfLonger(pattern, rest);
    MatchOf(count, gap, of, gap2, pattern + rest);
  }

  lemma NotParenthesis(w: string)
    requires EqualFold(w, "of") || PatternLength(w) > 0
    ensures w != "(" && w != ")"
  {
    if EqualFold(w, "of") {
      FoldedHead(w, "of", 0);
    } else {
      PatternHead(w);
    }
  }

  lemma PatternOfLonger(p: string, rest: string)
    requires PatternLength(p) > 0
    ensures PatternLength(p + rest) > 0
  {
    PatternHead(p);
  }

  // ----- the text and its words are read alike -----

  /** No quantifier starts in the part of the word that has been read. */
  ghost predicate NoneBefore(s: string, word: string, glued: bool) {
    word != "" && Hit(Tokenize(s, word), glued) ==> |Front(Tokenize(s, word)[0])| >= |word|
  }

  /** How the reader of the text, inside or before a word, stands to the reader of the words. */
  ghost predicate InStep(s: string, boundary: bool, word: string, glued: bool) {
    && IsRegular(s) && IsUnbroken(word) && NoneBefore(s, word, glued)
    && if word != "" then boundary == !IsWordChar(word[|word| - 1])
       else if s != "" && !IsSeparator(s[0]) then boundary == !glued
       else !glued
  }

  lemma {:induction false} TextIsWords(s: string, boundary: bool, word: string, glued: bool)
    requires InStep(s, boundary, word, glued)
    ensures LexText(s, boundary, word) == LexWords(Tokenize(s, word), glued)
    decreases |s|
  {
    hide InStep, MatchAt, Hit, IsSeparator, Tokenize, LexText, LexWords;
    if s == "" {
      EndInStep(boundary, word, glued);
    } else if MatchAt(s, boundary).Match? {
      var m := MatchAt(s, boundary);
      var later := !IsWordChar(s[m.length - 1]);
      var glued' := MatchInStep(s, boundary, word, glued);
      TextIsWords(s[m.length..], later, "", glued');
      TextOfMatch(s, boundary, word);
      HitHere(s, boundary, word, glued);
      MatchRead(s, boundary, word, glued);
    } else if IsSeparator(s[0]) {
      SeparatorInStep(s, boundary, word, glued);
      TextIsWords(s[1..], !IsWordChar(s[0]), "", false);
      SeparatorRead(s, boundary, word, glued);
    } else {
      LetterInStep(s, boundary, word, glued);
      TextIsWords(s[1..], !IsWordChar(s[0]), word + [s[0]], glued);
      LetterRead(s, boundary, word);
    }
  }

  lemma EndInStep(boundary: bool, word: string, glued: bool)
    requires InStep("", boundary, word, glued)
    ensures LexText("", boundary, word) == LexWords(Tokenize("", word), glued)
  {
    if word != "" {
      assert Tokenize("", word) == [word] && [word][1..] == [];
    }
  }

  lemma LetterRead(s: string, boundary: bool, word: string)
    requires s != "" && MatchAt(s, boundary).NoMatch? && !IsSeparator(s[0])
    ensures LexText(s, boundary, word) == LexText(s[1..], !IsWordChar(s[0]), word + [s[0]])
    ensures Tokenize(s, word) == Tokenize(s[1..], word + [s[0]])
  {
    hide MatchAt;
  }

  lemma LetterInStep(s: string, boundary: bool, word: string, glued: bool)
    requires s != "" && InStep(s, boundary, word, glued) && MatchAt(s, boundary).NoMatch? && !IsSeparator(s[0])
    ensures InStep(s[1..], !IsWordChar(s[0]), word + [s[0]], glued)
  {
    hide MatchHere, IsSpace, PatternLength, SuffixLength, EqualFold;
    LetterRead(s, boundary, word);
    var ts := Tokenize(s, word);
    if Hit(ts, glued) && |Front(ts[0])| <= |word| {
      TokenizeRun(s, word);
      assert ts[0] == word + s[..Run(s)] by {
      }
      assert |Front(ts[0])| == |word|;
      assert Front(ts[0]) == word;
      HitMatches(s, word, glued);
    }
  }

  lemma SeparatorInStep(s: string, boundary: bool, word: string, glued: bool)
    requires s != "" && InStep(s, boundary, word, glued) && IsSeparator(s[0])
    ensures InStep(s[1..], !IsWordChar(s[0]), "", false)
  {
  }

  lemma TextOfSeparator(s: string, boundary: bool, word: string)
    requires s != "" && MatchAt(s, boundary).NoMatch? && IsSeparator(s[0])
    ensures LexText(s, boundary, word) ==
            FlushTerm(word) + (if IsSpace(s[0]) then [] else [Word([s[0]])]) + LexText(s[1..], !IsWordChar(s[0]), "")
    ensures Tokenize(s, word) == Flush(word) + (if IsSpace(s[0]) then [] else [[s[0]]]) + Tokenize(s[1..])
  {
    hide MatchAt, IsWordChar;
  }

  lemma WordRead(word: string, tail: seq<string>, glued: bool)
    requires word != "" && !Hit([word] + tail, glued)
    ensures LexWords([word] + tail, glued) == [Word(word)] + LexWords(tail, false)
  {
    hide Hit;
    assert ([word] + tail)[1..] == tail;
  }

  lemma FrontIsShorter(ts: seq<string>, glued: bool)
    requires Hit(ts, glued)
    ensures |Front(ts[0])| < |ts[0]|
  {
  }

  /** A word in front of a separator is no part of a quantifier that starts in it. */
  lemma SeparatorRead(s: string, boundary: bool, word: string, glued: bool)
    requires s != "" && InStep(s, boundary, word, glued) && MatchAt(s, boundary).NoMatch? && IsSeparator(s[0])
    requires LexText(s[1..], !IsWordChar(s[0]), "") == LexWords(Tokenize(s[1..]), false)
    ensures LexText(s, boundary, word) == LexWords(Tokenize(s, word), glued)
  {
    hide MatchAt, Hit, LexText, LexWords, Tokenize, IsWordChar, IsSpace, Front;
    TextOfSeparator(s, boundary, word);
    var paren := if IsSpace(s[0]) then [] else [[s[0]]];
    var tail := paren + Tokenize(s[1..]);
    if !IsSpace(s[0]) {
      ParenthesisRead([s[0]], Tokenize(s[1..]));
    } else {
      assert tail == Tokenize(s[1..]);
    }
    assert Tokenize(s, word) == Flush(word) + tail;
    if word != "" {
      if Hit(Tokenize(s, word), glued) {
        FrontIsShorter(Tokenize(s, word), glued);
      }
      WordRead(word, tail, glued);
    } else {
      assert Flush(word) + tail == tail;
    }
  }

  lemma ParenthesisRead(w: string, tail: seq<string>)
    requires w == "(" || w == ")"
    ensures LexWords([w] + tail, false) == [Word(w)] + LexWords(tail, false)
  {
    assert ([w] + tail)[1..] == tail;
  }

  lemma MatchInStep(s: string, boundary: bool, word: string, glued: bool) returns (glued': bool)
    requires s != "" && InStep(s, boundary, word, glued) && MatchAt(s, boundary).Match?
    ensures var m := MatchAt(s, boundary);
            var rest := s[m.length..];
            && InStep(rest, !IsWordChar(s[m.length - 1]), "", glued')
            && glued' == (Run(rest) > 0 && IsWordChar(s[m.length - 1]))
  {
    hide MatchHere, IsWordChar, IsSpace;
    var m := MatchAt(s, boundary);
    glued' := Run(s[m.length..]) > 0 && IsWordChar(s[m.length - 1]);
  }

  /** The words of a match, `left` being what its last word has behind the pattern. */
  lemma WordsOfMatch(word: string, count: string, of: string, pattern: string, left: string, tail: seq<string>, glued: bool)
    requires IsCount(count) && BoundaryAfter(word, glued) && EqualFold(of, "of")
    requires pattern != "" && PatternLength(pattern + left) == |pattern|
    ensures LexWords([word + count, of, pattern + left] + tail, glued) ==
            FlushTerm(word) + [Quantifier(count, of, pattern)]
            + LexWords(Flush(left) + tail, left != "" && IsWordChar(pattern[|pattern| - 1]))
  {
    hide PatternLength, SuffixLength, EqualFold, IsWordChar, IsCount, BoundaryAfter;
    var ts, q := [word + count, of, pattern + left] + tail, pattern + left;
    SuffixOf(word, count);
    CountOf(count, "");
    assert q[|pattern|..] == left && q[..|pattern|] == pattern && q[|pattern| - 1] == pattern[|pattern| - 1];
    assert ts[3..] == tail && (word + count)[|word|..] == count;
  }

  lemma TextOfMatch(s: string, boundary: bool, word: string)
    requires s != "" && MatchAt(s, boundary).Match?
    ensures var m := MatchAt(s, boundary);
            LexText(s, boundary, word) ==
              FlushTerm(word) + [Quantifier(m.count, m.of, m.pattern)] + LexText(s[m.length..], !IsWordChar(s[m.length - 1]), "")
  {
    hide MatchAt, IsSpace;
  }

  /** The words of a text that starts with a match. */
  lemma MatchRead(s: string, boundary: bool, word: string, glued: bool)
    requires s != "" && MatchAt(s, boundary).Match? && BoundaryAfter(word, glued) && IsUnbroken(word)
    ensures var m := MatchAt(s, boundary);
            var rest := s[m.length..];
            LexWords(Tokenize(s, word), glued) ==
              FlushTerm(word) + [Quantifier(m.count, m.of, m.pattern)]
              + LexWords(Tokenize(rest), Run(rest) > 0 && IsWordChar(s[m.length - 1]))
  {
    hide MatchHere, PatternLength, EqualFold, IsWordChar, Run, Tokenize, IsSeparator, IsCount, LexWords, BoundaryAfter, IsUnbroken;
    var m := MatchAt(s, boundary);
    var rest := s[m.length..];
    var left := rest[..Run(rest)];
    MatchTokens(s, word);
    TokenizeRun(rest, m.pattern);
    TokenizeRun(rest, "");
    assert "" + left == left && Flush(m.pattern + left) == [m.pattern + left];
    var tail := Tokenize(rest[Run(rest)..]);
    assert [word + m.count, m.of] + ([m.pattern + left] + tail) == [word + m.count, m.of, m.pattern + left] + tail;
    WordsOfMatch(word, m.count, m.of, m.pattern, left, tail, glued);
    PatternEnds(s);
  }

  /** A match has a boundary before it also in the words. */
  lemma HitHere(s: string, boundary: bool, word: string, glued: bool)
    requires s != "" && InStep(s, boundary, word, glued) && MatchAt(s, boundary).Match?
    ensures BoundaryAfter(word, glued) && IsUnbroken(word)
  {
    hide IsRegular, NoneBefore;
    if word == "" {
      MatchStarts(s);
    }
  }

  lemma MatchStarts(s: string)
    requires MatchHere(s).Match?
    ensures s != "" && !IsSeparator(s[0])
  {
    hide MatchHere;
    MatchPieces(s);
    var gap, gap2, rest :| Pieces(s, gap, gap2, rest);
    CountOf(MatchHere(s).count, "");
  }

  lemma PatternEnds(s: string)
    requires MatchHere(s).Match?
    ensures var m := MatchHere(s); m.pattern != "" && m.pattern[|m.pattern| - 1] == s[m.length - 1]
  {
    hide PatternLength, EqualFold;
  }

  // ----- conditions in words -----

  function Spelling(t: Term): seq<string> {
    match t
    case Word(w) => [w]
    case Quantifier(c, o, p) => [c, o, p]
  }

  /** The words of a list of terms. */
  function Spell(ts: seq<Term>): seq<string> {
    if ts == [] then [] else Spelling(ts[0]) + Spell(ts[1..])
  }

  /** A quantifier written as a count, `of` and one word of pattern characters. */
  predicate IsWellSpelled(t: Term) {
    t.Quantifier? ==>
      IsCount(t.count) && EqualFold(t.of, "of") && t.pattern != "" && forall c :: c in t.pattern ==> IsPatternChar(c)
  }

  /** The pattern is `them` or does not begin with it. */
  predicate IsPlain(t: Term) {
    t.Quantifier? ==> PatternLength(t.pattern) == |t.pattern|
  }

  ghost predicate AllWellSpelled(ts: seq<Term>) {
    forall t :: t in ts ==> IsWellSpelled(t)
  }

  ghost predicate AllPlain(ts: seq<Term>) {
    forall t :: t in ts ==> IsPlain(t)
  }

  /** What the expression reads in the words of a term: the rest of a long pattern becomes a word of its own. */
  function Split(t: Term): seq<Term> {
    match t
    case Word(_) => [t]
    case Quantifier(c, o, p) => [Quantifier(c, o, p[..PatternLength(p)])] + FlushTerm(p[PatternLength(p)..])
  }

  function SplitAll(ts: seq<Term>): seq<Term> {
    if ts == [] then [] else Split(ts[0]) + SplitAll(ts[1..])
  }

  /** A selection name that is no keyword. */
  predicate IsPlainName(n: string) {
    IsWord(n) && !EqualFold(n, "or") && !EqualFold(n, "and") && !EqualFold(n, "not") && !EqualFold(n, "(") && !EqualFold(n, ")")
  }

  ghost predicate AllPlainNames(names: seq<string>) {
    forall n :: n in names ==> IsPlainName(n)
  }

  predicate IsOperator(t: Term) {
    IsKeyword(t, "or") || IsKeyword(t, "and") || IsKeyword(t, "not") || IsKeyword(t, "(") || IsKeyword(t, ")")
  }

  ghost predicate NotOf(rest: seq<string>) {
    rest != [] ==> !EqualFold(rest[0], "of")
  }

  lemma {:induction false} SpellAppend(a: seq<Term>, b: seq<Term>)
    ensures Spell(a + b) == Spell(a) + Spell(b)
    ensures SplitAll(a + b) == SplitAll(a) + SplitAll(b)
  {
    hide Split, Spelling;
    if a == [] {
      assert a + b == b;
    } else {
      assert (a + b)[1..] == a[1..] + b;
      SpellAppend(a[1..], b);
    }
  }

  lemma SpellOne(t: Term)
    ensures Spell([t]) == Spelling(t) && SplitAll([t]) == Split(t)
  {
    assert [t][1..] == [];
  }

  lemma SpellNode(a: seq<Term>, op: Term, b: seq<Term>)
    ensures Spell(a + [op] + b) == Spell(a) + Spelling(op) + Spell(b)
    ensures SplitAll(a + [op] + b) == SplitAll(a) + Split(op) + SplitAll(b)
  {
    hide Split, Spelling;
    SpellAppend(a + [op], b);
    SpellAppend(a, [op]);
    SpellOne(op);
  }

  lemma OperatorRead(t: Term, rest: seq<string>)
    requires IsOperator(t)
    ensures LexWords([t.text] + rest, false) == [t] + LexWords(rest, false)
    ensures NotOf([t.text] + rest)
  {
    assert ([t.text] + rest)[1..] == rest;
    OperatorHasNoCount(t.text);
  }

  lemma OperatorHasNoCount(w: string)
    requires EqualFold(w, "or") || EqualFold(w, "and") || EqualFold(w, "not") || EqualFold(w, "(") || EqualFold(w, ")")
    ensures SuffixLength(w) == 0 && !EqualFold(w, "of")
  {
    var keyword := Lower(w);
    FoldedHead(w, keyword, |keyword| - 1);
    FoldedHead(w, keyword, 0);
    if |w| >= 3 {
      assert w[|w| - 3..] == w;
      assert "and"[0] == 'a' && "and"[1] != "all"[1] && "not"[0] != "all"[0];
    }
    if |w| == 2 {
      assert "or"[1] != "of"[1];
    }
  }

  lemma NameRead(w: string, rest: seq<string>)
    requires NotOf(rest)
    ensures LexWords([w] + rest, false) == [Word(w)] + LexWords(rest, false)
    ensures forall glued :: LexWords([w] + rest, glued) == [Word(w)] + LexWords(rest, false)
  {
    hide PatternLength, SuffixLength, EqualFold;
    assert ([w] + rest)[1..] == rest;
  }

  lemma QuantifierRead(t: Term, rest: seq<string>)
    requires t.Quantifier? && IsWellSpelled(t) && NotOf(rest)
    ensures LexWords(Spelling(t) + rest, false) == Split(t) + LexWords(rest, false)
  {
    hide PatternLength, SuffixLength, EqualFold, IsCount, IsPatternChar;
    var ts, k := Spelling(t) + rest, PatternLength(t.pattern);
    assert ts[3..] == rest;
    SuffixOf("", t.count);
    assert "" + t.count == t.count;
    CountOf(t.count, "");
    assert k > 0 by {
      PatternOfChars(t.pattern);
    }
    assert Hit(ts, false);
    if k < |t.pattern| {
      NameRead(t.pattern[k..], rest);
      assert Flush(t.pattern[k..]) + rest == [t.pattern[k..]] + rest;
    } else {
      assert Flush(t.pattern[k..]) + rest == rest;
    }
  }

  lemma PatternOfChars(p: string)
    requires p != "" && forall c :: c in p ==> IsPatternChar(c)
    ensures PatternLength(p) > 0
  {
    assert p[0] in p;
  }

  /** The words of a sentence are read as its terms, long patterns split. */
  lemma {:induction false} OrRead(names: seq<string>, o: OrTree<Term>, rest: seq<string>)
    requires ValidOr(TermLexicon(names), o) && AllWellSpelled(YieldOr(o)) && NotOf(rest)
    ensures LexWords(Spell(YieldOr(o)) + rest, false) == SplitAll(YieldOr(o)) + LexWords(rest, false)
  {
    hide LexWords, Spell, SplitAll, IsWellSpelled, EqualFold;
    match o
    case OrOne(a) => AndRead(names, a, rest);
    case OrMore(l, op, r) =>
      assert IsOperator(op);
      SpellNode(YieldOr(l), op, YieldAnd(r));
      var tail := Spell(YieldAnd(r)) + rest;
      assert Spell(YieldOr(o)) + rest == Spell(YieldOr(l)) + ([op.text] + tail);
      OperatorRead(op, tail);
      OrRead(names, l, [op.text] + tail);
      AndRead(names, r, rest);
  }

  lemma {:induction false} AndRead(names: seq<string>, a: AndTree<Term>, rest: seq<string>)
    requires ValidAnd(TermLexicon(names), a) && AllWellSpelled(YieldAnd(a)) && NotOf(rest)
    ensures LexWords(Spell(YieldAnd(a)) + rest, false) == SplitAll(YieldAnd(a)) + LexWords(rest, false)
  {
    hide LexWords, Spell, SplitAll, IsWellSpelled, EqualFold;
    match a
    case AndOne(u) => UnaryRead(names, u, rest);
    case AndMore(l, op, r) =>
      assert IsOperator(op);
      SpellNode(YieldAnd(l), op, YieldUnary(r));
      var tail := Spell(YieldUnary(r)) + rest;
      assert Spell(YieldAnd(a)) + rest == Spell(YieldAnd(l)) + ([op.text] + tail);
      OperatorRead(op, tail);
      AndRead(names, l, [op.text] + tail);
      UnaryRead(names, r, rest);
  }

  lemma {:induction false} UnaryRead(names: seq<string>, u: UnaryTree<Term>, rest: seq<string>)
    requires ValidUnary(TermLexicon(names), u) && AllWellSpelled(YieldUnary(u)) && NotOf(rest)
    ensures LexWords(Spell(YieldUnary(u)) + rest, false) == SplitAll(YieldUnary(u)) + LexWords(rest, false)
  {
    hide LexWords, Spell, SplitAll, IsWellSpelled, EqualFold;
    match u
    case Leaf(t) =>
      SpellOne(t);
      if t.Word? {
        NameRead(t.text, rest);
      } else {
        assert t in YieldUnary(u);
        QuantifierRead(t, rest);
      }
    case Negation(op, c) =>
      assert IsOperator(op);
      SpellAppend([op], YieldUnary(c));
      SpellOne(op);
      OperatorRead(op, Spell(YieldUnary(c)) + rest);
      assert Spell(YieldUnary(u)) + rest == [op.text] + (Spell(YieldUnary(c)) + rest);
      UnaryRead(names, c, rest);
    case Group(open, inner, close) =>
      assert IsOperator(open) && IsOperator(close);
      SpellAppend([open] + YieldOr(inner), [close]);
      SpellAppend([open], YieldOr(inner));
      SpellOne(open);
      SpellOne(close);
      var tail := [close.text] + rest;
      OperatorRead(open, Spell(YieldOr(inner)) + tail);
      OperatorRead(close, rest);
      assert Spell(YieldUnary(u)) + rest == [open.text] + (Spell(YieldOr(inner)) + tail);
      OrRead(names, inner, tail);
  }

  // ----- a split pattern never parses -----

  /** What can follow an operand of a sentence. */
  ghost predicate Dead(ts: seq<Term>) {
    ts == [] || IsKeyword(ts[0], "and") || IsKeyword(ts[0], "or") || IsKeyword(ts[0], ")")
  }

  /** A left-over word, which no parser loop gets past. */
  ghost predicate Stuck(ts: seq<Term>) {
    && ts != [] && ts[0].Word? && !IsKeyword(ts[0], ")")
    && (IsKeyword(ts[0], "and") || IsKeyword(ts[0], "or") ==> Dead(ts[1..]))
  }

  ghost predicate StuckStep(r: Step<Term>) {
    r.Fail? || Stuck(r.rest)
  }

  lemma DeadFails(names: seq<string>, ts: seq<Term>)
    requires AllPlainNames(names) && Dead(ts)
    ensures ParseUnary(TermLexicon(names), ts).Fail? && ParseAnd(TermLexicon(names), ts).Fail?
  {
    if ts != [] {
      var keyword := Lower(ts[0].text);
      assert "and"[0] != "not"[0] && ")"[0] != "("[0];
      assert !IsKeyword(ts[0], "not") && !IsKeyword(ts[0], "(") && ts[0].text !in names;
    }
  }

  lemma StuckLoops(names: seq<string>, left: Node<Term>, ts: seq<Term>)
    requires AllPlainNames(names) && Stuck(ts)
    ensures StuckStep(AndLoop(TermLexicon(names), left, ts))
    ensures StuckStep(OrLoop(TermLexicon(names), left, ts))
  {
    hide AllPlainNames, EqualFold, Dead;
    if IsKeyword(ts[0], "and") || IsKeyword(ts[0], "or") {
      DeadFails(names, ts[1..]);
    }
  }

  lemma {:induction false} PlainIsWhole(ts: seq<Term>)
    requires AllPlain(ts)
    ensures SplitAll(ts) == ts
  {
    hide PatternLength;
    if ts != [] {
      assert ts[0] in ts;
      PlainIsWhole(ts[1..]);
      if ts[0].Quantifier? {
        assert ts[0].pattern[..|ts[0].pattern|] == ts[0].pattern;
      }
      assert ts == [ts[0]] + ts[1..];
    }
  }

  lemma PlainAppend(a: seq<Term>, b: seq<Term>)
    ensures AllPlain(a + b) <==> AllPlain(a) && AllPlain(b)
  {
    hide IsPlain;
    assert forall t :: t in a + b <==> t in a || t in b;
  }

  lemma PlainNode(a: seq<Term>, op: Term, b: seq<Term>)
    requires op.Word?
    ensures AllPlain(a + [op] + b) <==> AllPlain(a) && AllPlain(b)
  {
    PlainAppend(a + [op], b);
    PlainAppend(a, [op]);
  }

  lemma {:induction false} OrStuck(names: seq<string>, o: OrTree<Term>, rest: seq<Term>)
    requires AllPlainNames(names) && ValidOr(TermLexicon(names), o) && AllWellSpelled(YieldOr(o)) && Dead(rest)
    requires !AllPlain(YieldOr(o)) && (rest != [] ==> !IsKeyword(rest[0], "and"))
    ensures StuckStep(ParseOr(TermLexicon(names), SplitAll(YieldOr(o)) + rest))
  {
    hide SplitAll, AllPlain, AllPlainNames, IsWellSpelled, EqualFold, Stuck;
    var lex, ts := TermLexicon(names), SplitAll(YieldOr(o)) + rest;
    match o
    case OrOne(a) =>
      AndStuck(names, a, rest);
      var r := ParseAnd(lex, ts);
      if r.Ok? {
        StuckLoops(names, r.node, r.rest);
      }
    case OrMore(l, op, r) =>
      SpellNode(YieldOr(l), op, YieldAnd(r));
      PlainNode(YieldOr(l), op, YieldAnd(r));
      var tail := [op] + (SplitAll(YieldAnd(r)) + rest);
      assert ts == SplitAll(YieldOr(l)) + tail && tail[1..] == SplitAll(YieldAnd(r)) + rest;
      KeywordsDiffer(op);
      if !AllPlain(YieldOr(l)) {
        OrStuck(names, l, tail);
      } else {
        PlainIsWhole(YieldOr(l));
        TermLexiconIsSeparated(names);
        CompleteOr(lex, l, tail);
        AndStuck(names, r, rest);
        var step := ParseAnd(lex, tail[1..]);
        if step.Ok? {
          StuckLoops(names, Or(OrNode(l), step.node), step.rest);
        }
      }
  }

  lemma KeywordsDiffer(t: Term)
    ensures IsKeyword(t, "or") || IsKeyword(t, ")") ==> !IsKeyword(t, "and")
    ensures IsKeyword(t, "(") ==> !IsKeyword(t, "not")
  {
  }

  lemma {:induction false} AndStuck(names: seq<string>, a: AndTree<Term>, rest: seq<Term>)
    requires AllPlainNames(names) && ValidAnd(TermLexicon(names), a) && AllWellSpelled(YieldAnd(a)) && Dead(rest)
    requires !AllPlain(YieldAnd(a))
    ensures StuckStep(ParseAnd(TermLexicon(names), SplitAll(YieldAnd(a)) + rest))
  {
    hide SplitAll, AllPlain, AllPlainNames, IsWellSpelled, EqualFold, Stuck;
    var lex, ts := TermLexicon(names), SplitAll(YieldAnd(a)) + rest;
    match a
    case AndOne(u) =>
      UnaryStuck(names, u, rest);
      var r := ParseUnary(lex, ts);
      if r.Ok? {
        StuckLoops(names, r.node, r.rest);
      }
    case AndMore(l, op, r) =>
      SpellNode(YieldAnd(l), op, YieldUnary(r));
      PlainNode(YieldAnd(l), op, YieldUnary(r));
      var tail := [op] + (SplitAll(YieldUnary(r)) + rest);
      assert ts == SplitAll(YieldAnd(l)) + tail && tail[1..] == SplitAll(YieldUnary(r)) + rest;
      if !AllPlain(YieldAnd(l)) {
        AndStuck(names, l, tail);
      } else {
        PlainIsWhole(YieldAnd(l));
        TermLexiconIsSeparated(names);
        CompleteAnd(lex, l, tail);
        UnaryStuck(names, r, rest);
        var step := ParseUnary(lex, tail[1..]);
        if step.Ok? {
          StuckLoops(names, And(AndNode(l), step.node), step.rest);
        }
      }
  }

  lemma {:induction false} UnaryStuck(names: seq<string>, u: UnaryTree<Term>, rest: seq<Term>)
    requires AllPlainNames(names) && ValidUnary(TermLexicon(names), u) && AllWellSpelled(YieldUnary(u)) && Dead(rest)
    requires !AllPlain(YieldUnary(u))
    ensures StuckStep(ParseUnary(TermLexicon(names), SplitAll(YieldUnary(u)) + rest))
  {
    hide SplitAll, AllPlainNames, EqualFold, Stuck, PatternLength, IsPatternChar;
    var ts := SplitAll(YieldUnary(u)) + rest;
    match u
    case Leaf(t) =>
      assert t in YieldUnary(u);
      LongPatternStuck(names, t, rest);
    case Negation(op, c) =>
      SpellAppend([op], YieldUnary(c));
      SpellOne(op);
      PlainAppend([op], YieldUnary(c));
      UnaryStuck(names, c, rest);
      assert ts[1..] == SplitAll(YieldUnary(c)) + rest;
    case Group(open, inner, close) =>
      SplitGroup(open, YieldOr(inner), close);
      KeywordsDiffer(close);
      OrStuck(names, inner, [close] + rest);
      KeywordsDiffer(open);
      assert ts[1..] == SplitAll(YieldOr(inner)) + ([close] + rest);
      GroupStuck(names, ts);
  }

  lemma SplitGroup(open: Term, inner: seq<Term>, close: Term)
    requires open.Word? && close.Word?
    ensures SplitAll([open] + inner + [close]) == [open] + SplitAll(inner) + [close]
    ensures AllPlain([open] + inner + [close]) <==> AllPlain(inner)
  {
    SpellAppend([open] + inner, [close]);
    SpellAppend([open], inner);
    SpellOne(open);
    SpellOne(close);
    PlainAppend([open] + inner, [close]);
    PlainAppend([open], inner);
  }

  lemma GroupStuck(names: seq<string>, ts: seq<Term>)
    requires ts != [] && IsKeyword(ts[0], "(") && !IsKeyword(ts[0], "not")
    requires StuckStep(ParseOr(TermLexicon(names), ts[1..]))
    ensures ParseUnary(TermLexicon(names), ts).Fail?
  {
    hide EqualFold;
  }

  lemma LongPatternStuck(names: seq<string>, t: Term, rest: seq<Term>)
    requires t.Quantifier? && IsWellSpelled(t) && !IsPlain(t) && Dead(rest)
    ensures StuckStep(ParseUnary(TermLexicon(names), SplitAll([t]) + rest))
  {
    hide Dead, PatternLength;
    SpellOne(t);
    var k := PatternLength(t.pattern);
    var left := t.pattern[k..];
    assert left[0] == t.pattern[k] && t.pattern[k] in t.pattern;
    assert !EqualFold(left, ")") by {
      assert |left| == 1 ==> Lower(left)[0] == LowerChar(left[0]);
    }
    assert SplitAll([t]) + rest == [Quantifier(t.count, t.of, t.pattern[..k])] + ([Word(left)] + rest);
    assert ([Word(left)] + rest)[1..] == rest;
  }

  // ----- which written conditions compile -----

  lemma PlainNamesAreReadable(names: seq<string>)
    requires AllPlainNames(names)
    ensures AllReadable(names)
  {
  }

  /** The terms of a text written in the words of a sentence. */
  lemma WrittenTerms(names: seq<string>, condition: string, o: OrTree<Term>)
    requires ValidOr(TermLexicon(names), o) && AllWellSpelled(YieldOr(o))
    requires IsRegular(condition) && Tokenize(condition) == Spell(YieldOr(o))
    ensures LexText(condition, true, "") == SplitAll(YieldOr(o))
  {
    hide LexText, Spell, SplitAll, Tokenize, IsRegular;
    TextIsWords(condition, true, "", false);
    OrRead(names, o, []);
    assert Spell(YieldOr(o)) + [] == Spell(YieldOr(o)) && SplitAll(YieldOr(o)) + [] == SplitAll(YieldOr(o));
    assert LexWords([], false) == [];
  }

  /**
   A condition written in the words of a sentence, in any layout, compiles
   exactly when every quantifier matches some selection and no pattern properly
   begins with `them`; then it evaluates to the meaning of the sentence.
   */
  lemma WrittenCompilesExactly(names: seq<string>, condition: string, o: OrTree<Term>)
    requires AllPlainNames(names) && ValidOr(TermLexicon(names), o) && AllWellSpelled(YieldOr(o))
    requires IsRegular(condition) && Tokenize(condition) == Spell(YieldOr(o))
    ensures CompileText(names, condition).Some? <==> AllSelective(names, YieldOr(o)) && AllPlain(YieldOr(o))
    ensures CompileText(names, condition).Some? ==>
              forall matched :: Eval(CompileText(names, condition).value, matched) <==> Meaning(OrNode(o), names, matched)
  {
    hide LexText, SplitAll, Tokenize, CompileText, IsRegular, AllPlainNames, AllSelective, AllPlain, Spell, Meaning, ParseOr;
    var lex, terms := TermLexicon(names), LexText(condition, true, "");
    PlainNamesAreReadable(names);
    WrittenTerms(names, condition, o);
    CompileFollows(names, condition);
    if AllPlain(YieldOr(o)) {
      PlainIsWhole(YieldOr(o));
      TermLexiconIsSeparated(names);
      ParseYield(lex, o);
      if AllSelective(names, YieldOr(o)) {
        ExpansionPreservesMeaning(names, condition);
        assert Reads(names, condition, o);
      }
    } else {
      OrStuck(names, o, []);
      assert SplitAll(YieldOr(o)) + [] == SplitAll(YieldOr(o));
    }
  }

  // ----- every condition that compiles is written in words -----

  /** A word in the place of a pattern is `them` or does not begin with it. */
  ghost predicate NoLongThem(ts: seq<string>) {
    forall i :: 0 <= i < |ts| - 2 ==> !LongThemAt(ts, i)
  }

  predicate LongThemAt(ts: seq<string>, i: nat)
    requires i < |ts| - 2
  {
    EqualFold(ts[i + 1], "of") && StartsWithThem(ts[i + 2]) && |ts[i + 2]| > 4
  }

  predicate CanFollow(t: Term) {
    IsKeyword(t, "and") || IsKeyword(t, "or") || IsKeyword(t, ")")
  }

  /** Behind an operand comes an operator or a closing parenthesis. */
  ghost predicate Alternates(ts: seq<Term>) {
    forall i :: 0 <= i < |ts| - 1 && !IsOperator(ts[i]) ==> CanFollow(ts[i + 1])
  }

  lemma AlternatesNode(a: seq<Term>, op: Term, b: seq<Term>)
    requires Alternates(a) && Alternates(b) && IsOperator(op) && (a == [] || CanFollow(op))
    ensures Alternates(a + [op] + b)
  {
    hide IsOperator, CanFollow;
    var ts := a + [op] + b;
    forall i | 0 <= i < |ts| - 1 && !IsOperator(ts[i])
      ensures CanFollow(ts[i + 1])
    {
      if i < |a| - 1 {
        assert ts[i] == a[i] && ts[i + 1] == a[i + 1];
      } else if i > |a| {
        assert ts[i] == b[i - |a| - 1] && ts[i + 1] == b[i - |a| - 1 + 1];
      }
    }
  }

  lemma {:induction false} OrAlternates(names: seq<string>, o: OrTree<Term>)
    requires ValidOr(TermLexicon(names), o)
    ensures Alternates(YieldOr(o))
  {
    hide Alternates, EqualFold;
    match o
    case OrOne(a) => AndAlternates(names, a);
    case OrMore(l, op, r) =>
      OrAlternates(names, l);
      AndAlternates(names, r);
      AlternatesNode(YieldOr(l), op, YieldAnd(r));
  }

  lemma {:induction false} AndAlternates(names: seq<string>, a: AndTree<Term>)
    requires ValidAnd(TermLexicon(names), a)
    ensures Alternates(YieldAnd(a))
  {
    hide Alternates, EqualFold;
    match a
    case AndOne(u) => UnaryAlternates(names, u);
    case AndMore(l, op, r) =>
      AndAlternates(names, l);
      UnaryAlternates(names, r);
      AlternatesNode(YieldAnd(l), op, YieldUnary(r));
  }

  lemma {:induction false} UnaryAlternates(names: seq<string>, u: UnaryTree<Term>)
    requires ValidUnary(TermLexicon(names), u)
    ensures Alternates(YieldUnary(u))
  {
    hide EqualFold;
    match u
    case Leaf(_) =>
    case Negation(op, c) =>
      UnaryAlternates(names, c);
      AlternatesNode([], op, YieldUnary(c));
      assert [] + [op] + YieldUnary(c) == YieldUnary(u);
    case Group(open, inner, close) =>
      OrAlternates(names, inner);
      AlternatesNode([], open, YieldOr(inner));
      assert [] + [open] + YieldOr(inner) == [open] + YieldOr(inner);
      AlternatesNode([open] + YieldOr(inner), close, []);
      assert [open] + YieldOr(inner) + [close] + [] == YieldUnary(u);
  }

  lemma AlternatesRest(a: seq<Term>, b: seq<Term>)
    requires Alternates(a + b)
    ensures Alternates(b)
    ensures a != [] && b != [] && !IsOperator(a[|a| - 1]) ==> CanFollow(b[0])
  {
    hide IsOperator, CanFollow;
    forall i | 0 <= i < |b| - 1 && !IsOperator(b[i])
      ensures CanFollow(b[i + 1])
    {
      assert (a + b)[|a| + i] == b[i] && (a + b)[|a| + i + 1] == b[i + 1];
    }
    if a != [] && b != [] {
      assert (a + b)[|a| - 1] == a[|a| - 1] && (a + b)[|a| - 1 + 1] == b[0];
    }
  }

  lemma NoLongThemRest(ts: seq<string>, n: nat)
    requires NoLongThem(ts) && n <= |ts|
    ensures NoLongThem(ts[n..])
  {
    hide EqualFold, StartsWithThem;
    var rest := ts[n..];
    forall i | 0 <= i < |rest| - 2
      ensures !LongThemAt(rest, i)
    {
      assert !LongThemAt(ts, n + i);
      assert ts[n + i + 1] == rest[i + 1] && ts[n + i + 2] == rest[i + 2];
    }
  }

  /** Nothing that can follow an operand begins with a character outside patterns. */
  lemma FollowerStarts(t: Term)
    requires t.Word? && t.text != "" && !IsPatternChar(t.text[0]) && t.text[0] != ')'
    ensures !CanFollow(t)
  {
    if CanFollow(t) {
      FoldedHead(t.text, Lower(t.text), 0);
    }
  }

  /** A count in front of which something is left is no operator. */
  lemma FrontIsNoOperator(w: string, glued: bool)
    requires IsWord(w) && SuffixLength(w) > 0 && Front(w) != "" && BoundaryAfter(Front(w), glued)
    ensures !IsOperator(Word(Front(w)))
  {
    hide EqualFold, IsWordChar, IsSpace, IsKeyword, LowerChar;
    var f := Front(w);
    assert w != "(" && w != ")" by {
      assert SuffixLength("(") == 0 && SuffixLength(")") == 0;
    }
    assert f[|f| - 1] == w[|f| - 1] && w[|f| - 1] in w;
    if IsOperator(Word(f)) {
      OperatorEnds(f);
    }
  }

  lemma OperatorEnds(w: string)
    requires IsOperator(Word(w))
    ensures w != "" && (IsWordChar(w[|w| - 1]) || w[|w| - 1] == '(' || w[|w| - 1] == ')')
  {
    FoldedHead(w, Lower(w), |w| - 1);
  }

  /** The first term that is read starts like the first word. */
  lemma LexHead(w: string, rest: seq<string>, glued: bool)
    requires w != "" && !IsPatternChar(w[0]) && IsUnbroken(w)
    ensures var ts := LexWords([w] + rest, glued); ts != [] && ts[0].Word? && ts[0].text != "" && ts[0].text[0] == w[0]
  {
    hide PatternLength, EqualFold, BoundaryAfter, IsPatternChar;
    var ts := [w] + rest;
    if Hit(ts, glued) {
      SuffixStarts(w);
    }
  }

  lemma SuffixStarts(w: string)
    requires SuffixLength(w) > 0 && !IsPatternChar(w[0])
    ensures Front(w) != "" && Front(w)[0] == w[0]
  {
    if Front(w) == "" && w[|w| - 1] != '1' {
      assert w[|w| - 3..] == w;
      FoldedHead(w, "all", 0);
    }
  }

  lemma PatternEndsAt(q: string)
    requires PatternLength(q) < |q| && !(StartsWithThem(q) && |q| > 4)
    ensures !IsPatternChar(q[PatternLength(q)])
  {
  }

  /** A quantifier in an alternating reading stands alone in its words. */
  lemma HitIsWritten(ts: seq<string>, glued: bool)
    requires Hit(ts, glued) && NoLongThem(ts) && Alternates(LexWords(ts, glued)) && forall w :: w in ts ==> IsWord(w)
    ensures |ts| >= 3 && Front(ts[0]) == "" && PatternLength(ts[2]) == |ts[2]|
    ensures LexWords(ts, glued) == [Quantifier(ts[0], ts[1], ts[2])] + LexWords(ts[3..], false)
  {
    hide PatternLength, EqualFold, IsPatternChar, BoundaryAfter, IsOperator, CanFollow, Alternates;
    hide IsWord, Front, SuffixLength, IsUnbroken, StartsWithThem;
    var k, front := PatternLength(ts[2]), Front(ts[0]);
    var q := Quantifier(ts[0][|front|..], ts[1], ts[2][..k]);
    var left := ts[2][k..];
    var rest := LexWords(Flush(left) + ts[3..], k < |ts[2]| && IsWordChar(ts[2][k - 1]));
    assert LexWords(ts, glued) == FlushTerm(front) + [q] + rest;
    assert ts[0] in ts && ts[2] in ts;
    if front != "" {
      FrontIsNoOperator(ts[0], glued);
      assert FlushTerm(front) + [q] + rest == [Word(front)] + ([q] + rest);
      AlternatesRest([Word(front)], [q] + rest);
      QuantifierIsNoOperator(q);
    }
    AlternatesRest(FlushTerm(front) + [q], rest);
    QuantifierIsNoOperator(q);
    if left != "" {
      assert !LongThemAt(ts, 0);
      PatternEndsAt(ts[2]);
      LeftIsUnbroken(ts[2], k);
      LexHead(left, ts[3..], k < |ts[2]| && IsWordChar(ts[2][k - 1]));
      FollowerStarts(rest[0]);
    }
    assert left == "" && Flush(left) + ts[3..] == ts[3..];
    assert ts[2][..k] == ts[2];
    assert front == "" && ts[0][|front|..] == ts[0] && FlushTerm(front) == [];
  }

  lemma QuantifierIsNoOperator(t: Term)
    requires t.Quantifier?
    ensures !IsOperator(t) && !CanFollow(t)
  {
  }

  lemma LeftIsUnbroken(w: string, k: nat)
    requires IsWord(w) && k < |w| && PatternLength(w) > 0 && k > 0
    ensures IsUnbroken(w[k..]) && w[k..][0] == w[k] && w[k] != ')'
  {
    PatternHead(w);
    assert w != "(" && w != ")";
    assert w[k] in w && forall c :: c in w[k..] ==> c in w;
  }

  /** An alternating reading of words is spelled by them. */
  lemma {:induction false} ReadingIsWritten(ts: seq<string>)
    requires NoLongThem(ts) && Alternates(LexWords(ts, false)) && forall w :: w in ts ==> IsWord(w)
    ensures Spell(LexWords(ts, false)) == ts && AllWellSpelled(LexWords(ts, false))
    decreases |ts|
  {
    hide Hit, LexWords, NoLongThem, Alternates, IsWord, Spell, IsWellSpelled;
    LexStep(ts);
    if ts == [] {
    } else {
      var n := if Hit(ts, false) then 3 else 1;
      if Hit(ts, false) {
        HitIsWritten(ts, false);
      }
      var t := if Hit(ts, false) then Quantifier(ts[0], ts[1], ts[2]) else Word(ts[0]);
      var rest := LexWords(ts[n..], false);
      assert LexWords(ts, false) == [t] + rest;
      AlternatesRest([t], rest);
      NoLongThemRest(ts, n);
      ReadingIsWritten(ts[n..]);
      SpellAppend([t], rest);
      SpellOne(t);
      assert ts == Spelling(t) + ts[n..];
      WellSpelledHit(ts);
    }
  }

  lemma LexStep(ts: seq<string>)
    ensures LexWords([], false) == [] && Spell([]) == [] && AllWellSpelled([])
    ensures ts != [] && !Hit(ts, false) ==> LexWords(ts, false) == [Word(ts[0])] + LexWords(ts[1..], false)
  {
    hide Hit;
  }

  lemma WellSpelledHit(ts: seq<string>)
    ensures Hit(ts, false) && Front(ts[0]) == "" && PatternLength(ts[2]) == |ts[2]| ==>
              IsWellSpelled(Quantifier(ts[0], ts[1], ts[2]))
    ensures forall w :: IsWellSpelled(Word(w))
  {
    hide PatternLength, EqualFold, IsPatternChar;
    if Hit(ts, false) && Front(ts[0]) == "" && PatternLength(ts[2]) == |ts[2]| {
      SuffixIsCount(ts[0]);
      PatternOf(ts[2]);
      assert ts[2][..|ts[2]|] == ts[2];
      assert ts[0][|ts[0]| - SuffixLength(ts[0])..] == ts[0];
    }
  }

  /** The condition is written in the words of the sentence `o`, whose quantifiers match something. */
  ghost predicate Writes(names: seq<string>, condition: string, o: OrTree<Term>) {
    && ValidOr(TermLexicon(names), o) && AllWellSpelled(YieldOr(o)) && Tokenize(condition) == Spell(YieldOr(o))
    && AllSelective(names, YieldOr(o))
  }

  lemma {:induction false} WrittenIsPlain(ts: seq<Term>)
    requires NoLongThem(Spell(ts)) && AllWellSpelled(ts)
    ensures AllPlain(ts)
  {
    hide EqualFold, IsPatternChar, IsCount;
    if ts != [] {
      var words, t := Spell(ts), ts[0];
      assert t in ts;
      assert words == Spelling(t) + Spell(ts[1..]);
      NoLongThemRest(words, |Spelling(t)|);
      assert words[|Spelling(t)|..] == Spell(ts[1..]);
      WrittenIsPlain(ts[1..]);
      if t.Quantifier? {
        assert words[1] == t.of && words[2] == t.pattern && !LongThemAt(words, 0);
      }
      assert ts == [t] + ts[1..];
    }
  }

  /**
   With no longer pattern beginning with `them`, a condition compiles exactly
   when its words are those of a sentence whose quantifiers match something.
   */
  lemma CompilesExactlyWhenWritten(names: seq<string>, condition: string)
    requires AllPlainNames(names) && IsRegular(condition) && NoLongThem(Tokenize(condition))
    ensures CompileText(names, condition).Some? <==> exists o :: Writes(names, condition, o)
  {
    hide CompileText, LexText, Tokenize, LexWords, IsRegular, NoLongThem, Alternates, AllPlainNames;
    hide AllSelective, AllWellSpelled, Spell, IsWord, AllPlain;
    PlainNamesAreReadable(names);
    if CompileText(names, condition).Some? {
      ExpansionPreservesMeaning(names, condition);
      var o :| Reads(names, condition, o);
      TextIsWords(condition, true, "", false);
      OrAlternates(names, o);
      TokensAreWords(condition, "");
      ReadingIsWritten(Tokenize(condition));
      assert Writes(names, condition, o);
    }
    forall o | Writes(names, condition, o)
      ensures CompileText(names, condition).Some?
    {
      WrittenIsPlain(YieldOr(o));
      WrittenCompilesExactly(names, condition, o);
    }
  }

  /** In whatever sentence it stands, a pattern that properly begins with `them` keeps the condition from compiling. */
  lemma LongThemNeverCompiles(names: seq<string>, condition: string, o: OrTree<Term>, t: Term)
    requires AllPlainNames(names) && ValidOr(TermLexicon(names), o) && AllWellSpelled(YieldOr(o))
    requires IsRegular(condition) && Tokenize(condition) == Spell(YieldOr(o))
    requires t in YieldOr(o) && t.Quantifier? && StartsWithThem(t.pattern) && |t.pattern| > 4
    ensures CompileText(names, condition) == None
  {
    hide CompileText, Tokenize, IsRegular, Spell;
    WrittenCompilesExactly(names, condition, o);
    assert !IsPlain(t);
  }

  function Conjunction(left: Term, right: Term): OrTree<Term> {
    OrOne(AndMore(AndOne(Leaf(left)), Word("and"), Leaf(right)))
  }

  /** A conjunction of two atoms is a sentence. */
  lemma ConjunctionOf(names: seq<string>, left: Term, right: Term)
    requires IsLeaf(TermLexicon(names), left) && IsLeaf(TermLexicon(names), right)
    ensures ValidOr(TermLexicon(names), Conjunction(left, right))
    ensures YieldOr(Conjunction(left, right)) == [left, Word("and"), right]
  {
    assert Lower("and") == "and";
    var l: AndTree<Term> := AndOne(Leaf(left));
    var r: UnaryTree<Term> := Leaf(right);
    assert YieldUnary<Term>(Leaf(left)) == [left] && YieldAnd(l) == [left] && YieldUnary(r) == [right];
    var a := AndMore(l, Word("and"), r);
    assert ValidUnary(TermLexicon(names), Leaf(left)) && ValidUnary(TermLexicon(names), r);
    assert ValidAnd(TermLexicon(names), l) && TermLexicon(names).isAnd(Word("and"));
    assert YieldAnd(a) == [left, Word("and"), right] && ValidAnd(TermLexicon(names), a);
  }

  /** Text that is no sentence in words can compile by the same reading: here the left-over word is an operator. */
  lemma ThemAndCompiles(x: string)
    requires IsPlainName(x) && !EqualFold(x, "of")
    ensures CompileText([x], Render(["1", "of", "themand", x])).Some?
  {
    var names, words, them := [x], ["1", "of", "themand", x], Quantifier("1", "of", "them");
    assert IsLeaf(TermLexicon(names), Word(x)) && IsLeaf(TermLexicon(names), them);
    PlainNamesAreReadable(names);
    KeywordsAreWords(x);
    hide CompileText, Tokenize, LexText, LexWords, IsRegular, Matches, Render;
    hide IsWord, Conjunction, IsLeaf, IsPlainName, AllReadable, EqualFold;
    var text := Render(words);
    TokenizeRender(words);
    RenderIsRegular(words);
    TextIsWords(text, true, "", false);
    ReadThemAnd(x);
    ConjunctionOf(names, them, Word(x));
    ExpansionPreservesMeaning(names, text);
    ThemIsTaken();
    assert x in names;
    assert Reads(names, text, Conjunction(them, Word(x)));
  }

  lemma KeywordsAreWords(x: string)
    requires IsPlainName(x)
    ensures forall t :: t in ["1", "of", "themand", x] ==> IsWord(t)
  {
  }

  lemma {:induction false} RenderIsRegular(words: seq<string>)
    requires forall w :: w in words ==> IsWord(w)
    ensures IsRegular(Render(words))
  {
    if words != [] {
      RenderIsRegular(words[1..]);
      assert words[0] in words;
      assert forall c :: c in words[0] ==> !IsSpace(c);
    }
  }

  lemma ThemIsTaken()
    ensures var t := Quantifier("1", "of", "themand");
            IsWellSpelled(t) && Spelling(t) == ["1", "of", "themand"] && (forall n :: Matches("them", n))
            && Split(t) == [Quantifier("1", "of", "them"), Word("and")]
  {
    hide PatternRun;
    assert Lower("them") == "them" && Lower("of") == "of";
    assert "themand"[..4] == "them" && "themand"[4..] == "and";
  }

  lemma ReadThemAnd(x: string)
    requires !EqualFold(x, "of")
    ensures LexWords(["1", "of", "themand", x], false) == [Quantifier("1", "of", "them"), Word("and"), Word(x)]
  {
    hide LexWords, Split, Spelling, IsWellSpelled, EqualFold;
    ThemIsTaken();
    QuantifierRead(Quantifier("1", "of", "themand"), [x]);
    NameRead(x, []);
    LexStep([]);
    assert ["1", "of", "themand"] + [x] == ["1", "of", "themand", x] && [x] + [] == [x];
  }

}
