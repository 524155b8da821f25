/** The string helpers of the source language's standard library that the components rely on. */
module Text {
  import opened Ordering

  /** Unicode White_Space, as `unicode.IsSpace` decides it. */
  predicate IsSpace(c: char) {
    var n := c as int;
    || 0x09 <= n <= 0x0D || n == 0x20 || n == 0x85 || n == 0xA0 || n == 0x1680
    || 0x2000 <= n <= 0x200A || n == 0x2028 || n == 0x2029 || n == 0x202F || n == 0x205F || n == 0x3000
  }

  function TrimLeft(s: string): string {
    if s != [] && IsSpace(s[0]) then TrimLeft(s[1..]) else s
  }

  function TrimRight(s: string): string {
    if s != [] && IsSpace(s[|s| - 1]) then TrimRight(s[..|s| - 1]) else s
  }

  function Trim(s: string): string {
    TrimRight(TrimLeft(s))
  }

  ghost predicate IsTrimmed(s: string) {
    s != "" ==> !IsSpace(s[0]) && !IsSpace(s[|s| - 1])
  }

  ghost predicate AllSpace(s: string) {
    forall c :: c in s ==> IsSpace(c)
  }

  /** `t` is what is left of `s` without this white space around it. */
  ghost predicate Between(s: string, t: string, front: string, back: string) {
    AllSpace(front) && AllSpace(back) && s == front + (t + back)
  }

  ghost predicate TrimsTo(s: string, t: string) {
    exists front, back :: IsTrimmed(t) && Between(s, t, front, back)
  }

  lemma {:induction false} TrimLeftIs(s: string)
    ensures exists front :: AllSpace(front) && s == front + TrimLeft(s)
    ensures TrimLeft(s) != "" ==> !IsSpace(TrimLeft(s)[0])
  {
    if s != "" && IsSpace(s[0]) {
      TrimLeftIs(s[1..]);
      var front :| AllSpace(front) && s[1..] == front + TrimLeft(s[1..]);
      assert s == ([s[0]] + front) + TrimLeft(s) && AllSpace([s[0]] + front);
    } else {
      assert AllSpace("") && s == "" + TrimLeft(s);
    }
  }

  lemma {:induction false} TrimRightIs(s: string)
    ensures TrimRight(s) <= s && AllSpace(s[|TrimRight(s)|..])
    ensures TrimRight(s) != "" ==> !IsSpace(TrimRight(s)[|TrimRight(s)| - 1])
  {
    if s != "" && IsSpace(s[|s| - 1]) {
      var rest := s[..|s| - 1];
      TrimRightIs(rest);
      assert s[|TrimRight(rest)|..] == rest[|TrimRight(rest)|..] + [s[|s| - 1]];
    } else {
      assert s[|s|..] == "";
    }
  }

  lemma TrimsToTrim(s: string)
    ensures TrimsTo(s, Trim(s))
  {
    hide TrimLeft, TrimRight, IsSpace;
    var left := TrimLeft(s);
    TrimLeftIs(s);
    TrimRightIs(left);
    var front :| AllSpace(front) && s == front + left;
    assert Between(s, Trim(s), front, left[|Trim(s)|..]);
  }

  lemma {:induction false} TrimLeftOf(front: string, rest: string)
    requires AllSpace(front) && (rest != "" ==> !IsSpace(rest[0]))
    ensures TrimLeft(front + rest) == rest
  {
    if front == "" {
      assert front + rest == rest;
    } else {
      assert (front + rest)[1..] == front[1..] + rest;
      TrimLeftOf(front[1..], rest);
    }
  }

  lemma {:induction false} TrimRightOf(t: string, back: string)
    requires AllSpace(back) && (t != "" ==> !IsSpace(t[|t| - 1]))
    ensures TrimRight(t + back) == t
  {
    if back == "" {
      assert t + back == t;
    } else {
      assert (t + back)[..|t + back| - 1] == t + back[..|back| - 1];
      TrimRightOf(t, back[..|back| - 1]);
    }
  }

  /** Trimming removes exactly the white space around a text. */
  lemma TrimExactly(s: string, t: string)
    ensures Trim(s) == t <==> TrimsTo(s, t)
  {
    hide TrimLeft, TrimRight, IsSpace;
    TrimsToTrim(s);
    if TrimsTo(s, t) {
      var front, back :| Between(s, t, front, back);
      if t == "" {
        assert s == s + "" && AllSpace(s);
        TrimLeftOf(s, "");
        TrimRightOf("", "");
      } else {
        TrimLeftOf(front, t + back);
        TrimRightOf(t, back);
      }
    }
  }

  /** Blank after trimming: nothing but white space. */
  lemma TrimIsBlank(s: string)
    ensures Trim(s) == "" <==> AllSpace(s)
  {
    hide Trim;
    TrimExactly(s, "");
    if AllSpace(s) {
      assert Between(s, "", s, "");
    }
  }

  function LowerChar(c: char): char {
    if 'A' <= c <= 'Z' then c - 'A' + 'a' else c
  }

  function Lower(s: string): (r: string)
    ensures |r| == |s|
  {
    seq(|s|, i requires 0 <= i < |s| => LowerChar(s[i]))
  }

  /** Case-insensitive comparison with a lower-case keyword. */
  predicate EqualFold(s: string, keyword: string) {
    Lower(s) == keyword
  }

  ghost predicate StrictlySorted(s: seq<string>) {
    forall i, j :: 0 <= i < j < |s| ==> Less(s[i], s[j])
  }

  /** Adds `x` to a strictly sorted list unless it is there. */
  function InsertUnique(x: string, s: seq<string>): (t: seq<string>)
    ensures forall y :: y in t <==> y == x || y in s
  {
    if s == [] then [x]
    else if x == s[0] then s
    else
      assert s == [s[0]] + s[1..];
      if Less(x, s[0]) then [x] + s else [s[0]] + InsertUnique(x, s[1..])
  }

  lemma {:induction false} InsertUniqueKeepsSorted(x: string, s: seq<string>)
    requires StrictlySorted(s)
    ensures StrictlySorted(InsertUnique(x, s))
  {
    if s != [] && x != s[0] {
      if Less(x, s[0]) {
        forall j | 0 < j < |s|
          ensures Less(x, s[j])
        {
          LessIsTransitive(x, s[0], s[j]);
        }
      } else {
        LessIsTotal(x, s[0]);
        InsertUniqueKeepsSorted(x, s[1..]);
        var t := InsertUnique(x, s[1..]);
        forall j | 0 <= j < |t|
          ensures Less(s[0], t[j])
        {
          assert t[j] in t;
        }
      }
    }
  }

  /** The distinct non-blank values, trimmed and sorted. */
  function UniqueStrings(values: seq<string>): (t: seq<string>)
    ensures forall y :: y in t <==> y != "" && exists i :: 0 <= i < |values| && Trim(values[i]) == y
  {
    if values == [] then []
    else
      var rest := UniqueStrings(values[1..]);
      assert forall i :: 0 < i < |values| ==> values[i] == values[1..][i - 1];
      var value := Trim(values[0]);
      if value == "" then rest else InsertUnique(value, rest)
  }

  lemma {:induction false} UniqueStringsSorted(values: seq<string>)
    ensures StrictlySorted(UniqueStrings(values))
  {
    if values != [] {
      UniqueStringsSorted(values[1..]);
      if Trim(values[0]) != "" {
        InsertUniqueKeepsSorted(Trim(values[0]), UniqueStrings(values[1..]));
      }
    }
  }

  lemma StrictlySortedIsDistinct(s: seq<string>)
    requires StrictlySorted(s)
    ensures Distinct(s)
  {
    forall i, j | 0 <= i < j < |s|
      ensures s[i] != s[j]
    {
      LessIsIrreflexive(s[i]);
    }
  }

  function InsertString(x: string, s: seq<string>): seq<string> {
    if s == [] || Less(x, s[0]) then [x] + s else [s[0]] + InsertString(x, s[1..])
  }

  function SortStrings(s: seq<string>): seq<string> {
    if s == [] then [] else InsertString(s[0], SortStrings(s[1..]))
  }

  ghost predicate SortedStrings(s: seq<string>) {
    forall i, j :: 0 <= i < j < |s| ==> !Less(s[j], s[i])
  }

  lemma {:induction false} InsertStringIs(x: string, s: seq<string>)
    requires SortedStrings(s)
    ensures SortedStrings(InsertString(x, s)) && multiset(InsertString(x, s)) == multiset{x} + multiset(s)
  {
    if s == [] {
    } else if Less(x, s[0]) {
      forall j | 0 <= j < |s|
        ensures !Less(s[j], x)
      {
        if Less(s[j], x) {
          LessIsTransitive(s[j], x, s[0]);
          LessIsIrreflexive(s[j]);
        }
      }
    } else {
      assert s == [s[0]] + s[1..];
      InsertStringIs(x, s[1..]);
      var t := InsertString(x, s[1..]);
      forall j | 0 <= j < |t|
        ensures !Less(t[j], s[0])
      {
        assert t[j] in multiset(t) && (t[j] == x || t[j] in multiset(s[1..]));
      }
    }
  }

  lemma {:induction false} SortStringsIs(s: seq<string>)
    ensures SortedStrings(SortStrings(s)) && multiset(SortStrings(s)) == multiset(s)
  {
    if s != [] {
      SortStringsIs(s[1..]);
      InsertStringIs(s[0], SortStrings(s[1..]));
      assert s == [s[0]] + s[1..];
    }
  }

  lemma SameFirst(a: seq<string>, b: seq<string>)
    requires a != [] && b != [] && multiset(a) == multiset(b) && SortedStrings(a) && SortedStrings(b)
    ensures a[0] == b[0]
  {
    hide Less;
    assert a[0] in multiset(b) && b[0] in multiset(a);
    var i :| 0 <= i < |a| && a[i] == b[0];
    var j :| 0 <= j < |b| && b[j] == a[0];
    LessIsTotal(a[0], b[0]);
  }

  lemma {:induction false} SortedStringsAreUnique(a: seq<string>, b: seq<string>)
    requires multiset(a) == multiset(b) && SortedStrings(a) && SortedStrings(b)
    ensures a == b
  {
    hide Less;
    if a == [] {
      assert |b| == |multiset(b)| == 0;
    } else {
      assert |a| == |multiset(a)| == |multiset(b)| == |b|;
      SameFirst(a, b);
      DropHeads(a, b);
      SortedStringsAreUnique(a[1..], b[1..]);
      assert a == [a[0]] + a[1..] && b == [b[0]] + b[1..];
    }
  }

  /** Sorting forgets exactly the order. */
  lemma SortStringsExactly(a: seq<string>, b: seq<string>)
    ensures SortStrings(a) == SortStrings(b) <==> multiset(a) == multiset(b)
  {
    SortStringsIs(a);
    SortStringsIs(b);
    if multiset(a) == multiset(b) {
      SortedStringsAreUnique(SortStrings(a), SortStrings(b));
    }
  }
}
