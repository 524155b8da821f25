/**
 Which names a quantifier pattern selects, without the matcher: the pattern is
 a list of literal pieces with a star between each two, and a name is selected
 when it is those pieces in order with slash-free text at the stars.
 */
module SigmaPatterns {
  import opened Text
  import opened SigmaQuantifiers

  // ----- pieces and gaps -----

  /** The pieces in order with the gaps between them. */
  function Woven(pieces: seq<string>, gaps: seq<string>): string
    requires |pieces| == |gaps| + 1
  {
    if gaps == [] then pieces[0] else pieces[0] + (gaps[0] + Woven(pieces[1..], gaps[1..]))
  }

  function Stars(n: nat): (stars: seq<string>)
    ensures |stars| == n
  {
    seq(n, _ => "*")
  }

  ghost predicate StarFree(pieces: seq<string>) {
    forall i :: 0 <= i < |pieces| ==> '*' !in pieces[i]
  }

  ghost predicate SlashFree(gaps: seq<string>) {
    forall i :: 0 <= i < |gaps| ==> '/' !in gaps[i]
  }

  /** The name is woven from the pieces with these gaps. */
  ghost predicate Fits(pieces: seq<string>, s: string, gaps: seq<string>) {
    |pieces| == |gaps| + 1 && SlashFree(gaps) && s == Woven(pieces, gaps)
  }

  /** The pattern `p` is these star-free pieces with a star between each two. */
  ghost predicate IsPieces(p: string, pieces: seq<string>) {
    pieces != [] && StarFree(pieces) && p == Woven(pieces, Stars(|pieces| - 1))
  }

  lemma {:induction false} EveryPatternHasPieces(p: string)
    ensures exists pieces :: IsPieces(p, pieces)
  {
    if p == "" {
      assert IsPieces(p, [""]);
    } else {
      EveryPatternHasPieces(p[1..]);
      var rest :| IsPieces(p[1..], rest);
      PiecesOfLonger(p, rest);
    }
  }

  lemma PiecesOfLonger(p: string, rest: seq<string>)
    requires p != "" && IsPieces(p[1..], rest)
    ensures IsPieces(p, if p[0] == '*' then [""] + rest else [[p[0]] + rest[0]] + rest[1..])
  {
    hide Woven;
    assert p == [p[0]] + p[1..];
    if p[0] == '*' {
      WeaveOneMore("", rest);
    } else {
      WovenFirst(rest, Stars(|rest| - 1), [p[0]]);
    }
  }

  lemma WeaveOneMore(piece: string, rest: seq<string>)
    requires rest != []
    ensures Woven([piece] + rest, Stars(|rest|)) == piece + ("*" + Woven(rest, Stars(|rest| - 1)))
  {
    assert Stars(|rest|)[1..] == Stars(|rest| - 1) && ([piece] + rest)[1..] == rest;
  }

  /** Text in front of the first piece is text in front. */
  lemma WovenFirst(pieces: seq<string>, gaps: seq<string>, front: string)
    requires |pieces| == |gaps| + 1
    ensures Woven([front + pieces[0]] + pieces[1..], gaps) == front + Woven(pieces, gaps)
  {
    if gaps != [] {
      assert (front + pieces[0]) + (gaps[0] + Woven(pieces[1..], gaps[1..]))
          == front + (pieces[0] + (gaps[0] + Woven(pieces[1..], gaps[1..])));
    }
  }

  // ----- the matcher -----

  lemma {:induction false} GlobLiteral(lit: string, p: string, s: string)
    requires '*' !in lit
    ensures Glob(lit + p, s) <==> lit <= s && Glob(p, s[|lit|..])
  {
    if lit == "" {
      assert lit + p == p && s[0..] == s;
    } else {
      assert (lit + p)[0] == lit[0] && (lit + p)[1..] == lit[1..] + p;
      if s != "" && s[0] == lit[0] {
        GlobLiteral(lit[1..], p, s[1..]);
        assert s == [s[0]] + s[1..] && lit == [lit[0]] + lit[1..];
        assert lit <= s <==> lit[1..] <= s[1..];
        assert lit <= s ==> s[1..][|lit| - 1..] == s[|lit|..];
      }
    }
  }

  ghost predicate GapThen(p: string, s: string, n: nat) {
    n <= |s| && '/' !in s[..n] && Glob(p, s[n..])
  }

  lemma {:induction false} GlobStar(p: string, s: string)
    ensures Glob("*" + p, s) <==> exists n :: GapThen(p, s, n)
  {
    assert ("*" + p)[1..] == p;
    if Glob(p, s) {
      assert s[0..] == s && GapThen(p, s, 0);
    }
    if s != "" {
      GlobStar(p, s[1..]);
      if s[0] != '/' && Glob("*" + p, s[1..]) {
        var n: nat :| GapThen(p, s[1..], n);
        assert s[1..][n..] == s[n + 1..] && s[..n + 1] == [s[0]] + s[1..][..n];
        assert GapThen(p, s, n + 1);
      }
    }
    if n: nat :| GapThen(p, s, n) && n > 0 {
      assert s[0] in s[..n] && s[1..][n - 1..] == s[n..] && s[1..][..n - 1] == s[..n][1..];
      assert GapThen(p, s[1..], n - 1);
    } else if n: nat :| GapThen(p, s, n) {
      assert s[n..] == s;
    }
  }

  lemma FitsMore(lit: string, rest: seq<string>, gap: string, gaps: seq<string>, tail: string)
    requires Fits(rest, tail, gaps) && '/' !in gap
    ensures Fits([lit] + rest, lit + (gap + tail), [gap] + gaps)
  {
    assert ([lit] + rest)[1..] == rest && ([gap] + gaps)[1..] == gaps;
  }

  lemma FitsFewer(pieces: seq<string>, s: string, gaps: seq<string>)
    requires |pieces| > 1 && Fits(pieces, s, gaps)
    ensures pieces[0] <= s && gaps[0] <= s[|pieces[0]|..] && '/' !in gaps[0]
    ensures Fits(pieces[1..], s[|pieces[0]|..][|gaps[0]|..], gaps[1..])
  {
    assert s[|pieces[0]|..] == gaps[0] + Woven(pieces[1..], gaps[1..]);
  }

  /** The matcher accepts exactly the pieces of the pattern in order with slash-free gaps. */
  lemma {:induction false} GlobExactly(p: string, pieces: seq<string>, s: string)
    requires IsPieces(p, pieces)
    ensures Glob(p, s) <==> exists gaps :: Fits(pieces, s, gaps)
    decreases |pieces|
  {
    hide Glob, Woven;
    var lit := pieces[0];
    if |pieces| == 1 {
      OnePiece(p, pieces, s);
    } else {
      var rest := pieces[1..];
      var q := Woven(rest, Stars(|rest| - 1));
      assert pieces == [lit] + rest;
      WeaveOneMore(lit, rest);
      assert IsPieces(q, rest);
      GlobLiteral(lit, "*" + q, s);
      if lit <= s {
        GlobStar(q, s[|lit|..]);
      }
      if Glob(p, s) {
        var n: nat :| GapThen(q, s[|lit|..], n);
        var gap, tail := s[|lit|..][..n], s[|lit|..][n..];
        GlobExactly(q, rest, tail);
        var gaps :| Fits(rest, tail, gaps);
        FitsMore(lit, rest, gap, gaps, tail);
        assert s == lit + (gap + tail);
        assert Fits(pieces, s, [gap] + gaps);
      }
      if gaps :| Fits(pieces, s, gaps) {
        FitsFewer(pieces, s, gaps);
        var tail := s[|lit|..][|gaps[0]|..];
        GlobExactly(q, rest, tail);
        assert Fits(rest, tail, gaps[1..]);
        assert s[|lit|..][..|gaps[0]|] == gaps[0];
        assert GapThen(q, s[|lit|..], |gaps[0]|);
      }
    }
  }

  lemma OnePiece(p: string, pieces: seq<string>, s: string)
    requires IsPieces(p, pieces) && |pieces| == 1
    ensures (Glob(p, s) <==> s == p) && ((exists gaps :: Fits(pieces, s, gaps)) <==> s == p)
  {
    GlobLiteral(p, "", s);
    assert p + "" == p;
    assert p == s ==> Fits(pieces, s, []);
  }

  // ----- patterns and names, up to the case of ASCII letters -----

  predicate SameLetter(a: char, b: char) {
    a == b || ('A' <= a <= 'Z' && b == a - 'A' + 'a') || ('A' <= b <= 'Z' && a == b - 'A' + 'a')
  }

  predicate SameLetters(a: string, b: string) {
    |a| == |b| && forall i :: 0 <= i < |a| ==> SameLetter(a[i], b[i])
  }

  lemma LowerExactly(a: string, b: string)
    ensures Lower(a) == Lower(b) <==> SameLetters(a, b)
  {
    if Lower(a) == Lower(b) {
      forall i | 0 <= i < |a|
        ensures SameLetter(a[i], b[i])
      {
        assert Lower(a)[i] == Lower(b)[i];
      }
    }
  }

  lemma LowerKeeps(s: string, c: char)
    requires c == '*' || c == '/'
    ensures c in Lower(s) <==> c in s
  {
    if c in s {
      var i :| 0 <= i < |s| && s[i] == c;
      assert Lower(s)[i] == c;
    }
    if c in Lower(s) {
      var i :| 0 <= i < |s| && Lower(s)[i] == c;
      assert s[i] == c;
    }
  }

  /** A pattern selects a name exactly when the lower-case name fits the lower-case pieces; `them` selects every name. */
  lemma SelectsExactly(p: string, pieces: seq<string>, name: string)
    requires IsPieces(Lower(p), pieces)
    ensures Matches(p, name) <==> SameLetters(p, "them") || exists gaps :: Fits(pieces, Lower(name), gaps)
  {
    GlobExactly(Lower(p), pieces, Lower(name));
    LowerExactly(p, "them");
    assert Lower("them") == "them";
  }

  /** Without a star: the equal names. */
  lemma LiteralSelects(p: string, name: string)
    requires '*' !in p && !SameLetters(p, "them")
    ensures Matches(p, name) <==> SameLetters(p, name)
  {
    hide Lower, SameLetters;
    LowerKeeps(p, '*');
    LowerExactly(p, name);
    LowerExactly(p, "them");
    LowerOfThem();
    assert IsPieces(Lower(p), [Lower(p)]);
    OnePiece(Lower(p), [Lower(p)], Lower(name));
  }

  lemma LowerOfThem()
    ensures Lower("them") == "them"
  {
  }

  lemma LowerSlices(s: string, n: nat)
    requires n <= |s|
    ensures Lower(s[..n]) == Lower(s)[..n] && Lower(s[n..]) == Lower(s)[n..]
  {
  }

  lemma LowerAppend(a: string, b: string)
    ensures Lower(a + b) == Lower(a) + Lower(b)
  {
  }

  lemma StarIsNotThem(p: string)
    requires '*' in p
    ensures !EqualFold(p, "them")
  {
    LowerKeeps(p, '*');
    assert '*' !in "them";
  }

  /** A literal and a star: the names that begin with the literal and go on without a slash. */
  lemma PrefixSelects(lit: string, name: string)
    requires '*' !in lit
    ensures Matches(lit + "*", name) <==>
            |lit| <= |name| && SameLetters(lit, name[..|lit|]) && '/' !in name[|lit|..]
  {
    hide Lower, SameLetters, Glob;
    LowerAppend(lit, "*");
    LowerKeeps(lit, '*');
    StarIsNotThem(lit + "*");
    LowerOfStar();
    GlobLiteral(Lower(lit), "*", Lower(name));
    if |lit| <= |name| {
      LowerSlices(name, |lit|);
      LowerExactly(lit, name[..|lit|]);
      LowerKeeps(name[|lit|..], '/');
      StarMatches(Lower(name)[|lit|..]);
    }
  }

  lemma LowerOfStar()
    ensures Lower("*") == "*"
  {
  }

  lemma StarMatches(s: string)
    ensures Glob("*", s) <==> '/' !in s
  {
    GlobStar("", s);
    assert "*" + "" == "*";
    if n: nat :| GapThen("", s, n) {
      assert s[..n] == s;
    }
    if '/' !in s {
      assert s[..|s|] == s && GapThen("", s, |s|);
    }
  }

  /** A star and a literal: the names that end in the literal behind a front without a slash. */
  lemma SuffixSelects(lit: string, name: string)
    requires '*' !in lit
    ensures Matches("*" + lit, name) <==>
            |lit| <= |name| && '/' !in name[..|name| - |lit|] && SameLetters(lit, name[|name| - |lit|..])
  {
    hide Lower, SameLetters, Glob;
    LowerAppend("*", lit);
    LowerKeeps(lit, '*');
    StarIsNotThem("*" + lit);
    LowerOfStar();
    StarThen(Lower(lit), Lower(name));
    if |lit| <= |name| {
      var n := |name| - |lit|;
      LowerSlices(name, n);
      LowerExactly(lit, name[n..]);
      LowerKeeps(name[..n], '/');
    }
  }

  lemma StarThen(lit: string, s: string)
    requires '*' !in lit
    ensures Glob("*" + lit, s) <==> |lit| <= |s| && '/' !in s[..|s| - |lit|] && s[|s| - |lit|..] == lit
  {
    hide Glob;
    GlobStar(lit, s);
    forall n: nat | n <= |s|
      ensures Glob(lit, s[n..]) <==> s[n..] == lit
    {
      assert IsPieces(lit, [lit]);
      OnePiece(lit, [lit], s[n..]);
    }
    if |lit| <= |s| && '/' !in s[..|s| - |lit|] && s[|s| - |lit|..] == lit {
      assert GapThen(lit, s, |s| - |lit|);
    }
  }

  /** An instance: of `selection` and `x_filter`, the pattern `*_filter` selects the second alone. */
  lemma FilterSelectsOne()
    ensures Selected(["selection", "x_filter"], "*_filter") == ["x_filter"]
  {
    hide Matches;
    SuffixSelects("_filter", "selection");
    SuffixSelects("_filter", "x_filter");
    assert "*" + "_filter" == "*_filter" && "selection"[2..] == "lection" && "x_filter"[1..] == "_filter" && "x_filter"[..1] == "x";
    assert !SameLetter("_filter"[0], "lection"[0]);
    SelectedAppend(["selection"], "*_filter", "x_filter");
    SelectedAppend([], "*_filter", "selection");
    assert [] + ["selection"] == ["selection"] && ["selection"] + ["x_filter"] == ["selection", "x_filter"];
  }
}
