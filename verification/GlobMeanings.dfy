/** What patterns match, told of the patterns as they are written: no tokens, only texts. */
module GlobMeanings {
  import opened Glob

  // --- ordinary characters ---------------------------------------------------------------------------------------

  predicate Plainly(p: seq<Char>) { forall i :: 0 <= i < |p| ==> p[i] !in {42, 63, 91, 92} }

  /** The same text, but for the case of letters if that does not matter. */
  predicate Alike(p: seq<Char>, s: seq<Char>, nocase: bool) {
    |s| == |p| && forall i :: 0 <= i < |p| ==> s[i] == p[i] || (nocase && OtherCase(s[i], p[i]))
  }

  /** A capital letter and its small one, either way round. */
  predicate OtherCase(a: Char, b: Char) { (65 <= a <= 90 && b == a + 32) || (65 <= b <= 90 && a == b + 32) }

  lemma SameMeans(a: Char, b: Char, nocase: bool)
    ensures Same(a, b, nocase) <==> a == b || (nocase && OtherCase(b, a))
  {
  }

  lemma AlikeHead(p: seq<Char>, s: seq<Char>, nocase: bool)
    requires p != []
    ensures Alike(p, s, nocase) <==> s != [] && Same(p[0], s[0], nocase) && Alike(p[1..], s[1..], nocase)
  {
    if s != [] {
      SameMeans(p[0], s[0], nocase);
      if Alike(p[1..], s[1..], nocase) && Same(p[0], s[0], nocase) && |s| == |p| {
        forall i | 0 <= i < |p| ensures s[i] == p[i] || (nocase && OtherCase(s[i], p[i])) {
          if i > 0 { assert s[1..][i - 1] == s[i] && p[1..][i - 1] == p[i]; }
        }
      }
    }
  }

  /** An ordinary text in front of a pattern takes itself. */
  lemma {:induction false} OrdinaryThen(pat: seq<Char>, p: seq<Char>, from: nat, s: seq<Char>, nocase: bool)
    requires Plainly(p) && from + |p| <= |pat| && pat[from..from + |p|] == p
    ensures Matches(Tokens(pat, from), s, nocase) <==>
            |p| <= |s| && Alike(p, s[..|p|], nocase) && Matches(Tokens(pat, from + |p|), s[|p|..], nocase)
    decreases |p|
  {
    hide Matches, Alike, Same;
    if p == [] {
      assert s[0..] == s && s[..0] == [];
      assert Alike(p, [], nocase) by { NothingAlike(nocase); }
    } else {
      hide Tokens;
      OneOrdinary(pat, from, s, nocase);
      if s != [] {
        assert pat[from + 1..from + 1 + |p[1..]|] == p[1..];
        OrdinaryThen(pat, p[1..], from + 1, s[1..], nocase);
        if |p| <= |s| {
          AlikeHead(p, s[..|p|], nocase);
          assert s[1..][..|p| - 1] == s[..|p|][1..] && s[1..][|p| - 1..] == s[|p|..];
        }
      }
    }
  }

  lemma NothingAlike(nocase: bool)
    ensures Alike([], [], nocase)
  {
  }

  lemma OneOrdinary(pat: seq<Char>, p: nat, s: seq<Char>, nocase: bool)
    requires p < |pat| && Plainly([pat[p]])
    ensures Matches(Tokens(pat, p), s, nocase) <==>
            s != [] && Same(pat[p], s[0], nocase) && Matches(Tokens(pat, p + 1), s[1..], nocase)
  {
    hide Matches, Same;
    assert [pat[p]][0] == pat[p];
    MatchOne(Lit(pat[p]), Tokens(pat, p + 1), s, nocase);
  }

  /** A text of ordinary characters matches exactly itself. */
  lemma OrdinaryMeans(p: seq<Char>, s: seq<Char>, nocase: bool)
    requires Plainly(p)
    ensures Matches(Tokens(p, 0), s, nocase) <==> Alike(p, s, nocase)
    ensures Matches(Tokens(p, 0), s, false) <==> s == p
  {
    hide Matches;
    assert p[0..0 + |p|] == p;
    OrdinaryThen(p, p, 0, s, nocase);
    OrdinaryThen(p, p, 0, s, false);
    if |p| <= |s| {
      MatchNothing(s[|p|..], nocase);
      MatchNothing(s[|p|..], false);
      assert |s| == |p| ==> s[..|p|] == s;
    }
  }

  // --- any text, with a backslash before every character ----------------------------------------------------------

  function Quoted(t: seq<Char>): (p: seq<Char>)
    ensures |p| == 2 * |t|
  {
    if t == [] then [] else [BACKSLASH, t[0]] + Quoted(t[1..])
  }

  lemma {:induction false} QuotedFrom(pat: seq<Char>, p: nat, t: seq<Char>, s: seq<Char>, nocase: bool)
    requires p <= |pat| && pat[p..] == Quoted(t)
    ensures Matches(Tokens(pat, p), s, nocase) <==> Alike(t, s, nocase)
    decreases |t|
  {
    hide Matches, Alike, Same;
    if t == [] {
      MatchNothing(s, nocase);
      NothingElseAlike(s, nocase);
    } else {
      assert pat[p] == pat[p..][0] && pat[p + 1] == pat[p..][1] && pat[p + 2..] == pat[p..][2..] == Quoted(t[1..]);
      MatchOne(Lit(t[0]), Tokens(pat, p + 2), s, nocase);
      AlikeHead(t, s, nocase);
      if s != [] { QuotedFrom(pat, p + 2, t[1..], s[1..], nocase); }
    }
  }

  lemma NothingElseAlike(s: seq<Char>, nocase: bool)
    ensures Alike([], s, nocase) <==> s == []
  {
  }

  /** Any text at all can be matched: with every character escaped the pattern matches exactly it. */
  lemma QuotedMeans(t: seq<Char>, s: seq<Char>, nocase: bool)
    ensures Matches(Tokens(Quoted(t), 0), s, nocase) <==> Alike(t, s, nocase)
    ensures Matches(Tokens(Quoted(t), 0), s, false) <==> s == t
  {
    hide Matches;
    assert Quoted(t)[0..] == Quoted(t);
    QuotedFrom(Quoted(t), 0, t, s, nocase);
    QuotedFrom(Quoted(t), 0, t, s, false);
  }

  /** A backslash with nothing behind it stands for itself. */
  lemma LoneBackslash(s: seq<Char>, nocase: bool)
    ensures Matches(Tokens([BACKSLASH], 0), s, nocase) <==> s == [BACKSLASH]
  {
    hide Matches;
    var pat := [BACKSLASH];
    assert Tokens(pat, 1) == [];
    MatchOne(Lit(BACKSLASH), [], s, nocase);
    if s != [] { MatchNothing(s[1..], nocase); }
  }

  // --- wildcards -------------------------------------------------------------------------------------------------

  /** A star between two ordinary texts: what starts with the one and ends with the other, without overlap. */
  lemma StarBetween(a: seq<Char>, b: seq<Char>, s: seq<Char>, nocase: bool)
    requires Plainly(a) && Plainly(b)
    ensures Matches(Tokens(a + [STAR] + b, 0), s, nocase) <==>
            |a| + |b| <= |s| && Alike(a, s[..|a|], nocase) && Alike(b, s[|s| - |b|..], nocase)
  {
    hide Matches, Alike, Tokens, Plainly;
    var pat, n := a + [STAR] + b, |a|;
    assert pat[0..0 + n] == a && pat[n] == STAR && pat[n + 1..] == b;
    OrdinaryThen(pat, a, 0, s, nocase);
    if n <= |s| {
      StarThen(pat, n, b, s[n..], nocase);
      if n + |b| <= |s| { SameEnd(s, n, |b|); }
    }
  }

  lemma SameEnd(s: seq<Char>, n: nat, m: nat)
    requires n + m <= |s|
    ensures s[n..][|s[n..]| - m..] == s[|s| - m..]
  {
  }

  lemma StarThen(pat: seq<Char>, n: nat, b: seq<Char>, s: seq<Char>, nocase: bool)
    requires n < |pat| && pat[n] == STAR && pat[n + 1..] == b && Plainly(b)
    ensures Matches(Tokens(pat, n), s, nocase) <==> |b| <= |s| && Alike(b, s[|s| - |b|..], nocase)
  {
    hide Matches, Alike;
    MatchStar(Tokens(pat, n + 1), s, nocase);
    assert pat[n + 1..n + 1 + |b|] == b && n + 1 + |b| == |pat|;
    forall k | 0 <= k <= |s|
      ensures Matches(Tokens(pat, n + 1), s[k..], nocase) <==> k == |s| - |b| && Alike(b, s[k..], nocase)
    {
      OrdinaryThen(pat, b, n + 1, s[k..], nocase);
      if |b| <= |s[k..]| {
        MatchNothing(s[k..][|b|..], nocase);
        assert |s[k..]| == |b| ==> s[k..][..|b|] == s[k..];
      }
    }
    if |b| <= |s| && Alike(b, s[|s| - |b|..], nocase) { assert Matches(Tokens(pat, n + 1), s[|s| - |b|..], nocase); }
  }

  function Questions(n: nat): (p: seq<Char>)
    ensures |p| == n && forall i :: 0 <= i < n ==> p[i] == QUESTION
  {
    seq(n, i => QUESTION)
  }

  lemma {:induction false} QuestionsFrom(pat: seq<Char>, p: nat, s: seq<Char>, nocase: bool)
    requires p <= |pat| && forall i :: p <= i < |pat| ==> pat[i] == QUESTION
    ensures Matches(Tokens(pat, p), s, nocase) <==> |s| == |pat| - p
    decreases |pat| - p
  {
    hide Matches;
    if p == |pat| {
      MatchNothing(s, nocase);
    } else {
      MatchOne(Any, Tokens(pat, p + 1), s, nocase);
      if s != [] { QuestionsFrom(pat, p + 1, s[1..], nocase); }
    }
  }

  /** Question marks match just the texts of as many characters. */
  lemma QuestionsMean(n: nat, s: seq<Char>, nocase: bool)
    ensures Matches(Tokens(Questions(n), 0), s, nocase) <==> |s| == n
  {
    QuestionsFrom(Questions(n), 0, s, nocase);
  }

  // --- classes ---------------------------------------------------------------------------------------------------

  /** A pattern that is one class and nothing else. */
  lemma OneClass(pat: seq<Char>, negated: bool, items: seq<Item>, s: seq<Char>, nocase: bool)
    requires Tokens(pat, 0) == [Class(negated, items)]
    ensures Matches(Tokens(pat, 0), s, nocase) <==> |s| == 1 && (ItemsAccept(items, s[0], nocase) != negated)
  {
    hide Matches, ItemsAccept;
    assert Tokens(pat, 0) == [Class(negated, items)] + [];
    MatchOne(Class(negated, items), [], s, nocase);
    if s != [] { MatchNothing(s[1..], nocase); }
  }

  function Set(cs: seq<Char>, negated: bool, closed: bool): seq<Char> {
    [OPEN] + (if negated then [CARET] else []) + cs + if closed then [CLOSE] else []
  }

  predicate ClassChars(cs: seq<Char>) {
    forall i :: 0 <= i < |cs| ==> cs[i] != CLOSE && cs[i] != BACKSLASH && cs[i] != DASH && cs[i] != CARET
  }

  function Plains(cs: seq<Char>): (items: seq<Item>)
    ensures |items| == |cs| && forall i :: 0 <= i < |cs| ==> items[i] == Plain(cs[i])
  {
    seq(|cs|, i requires 0 <= i < |cs| => Plain(cs[i]))
  }

  lemma {:induction false} PlainItems(pat: seq<Char>, p: nat, cs: seq<Char>)
    requires ClassChars(cs) && p + |cs| <= |pat| && pat[p..p + |cs|] == cs
    requires p + |cs| == |pat| || (p + |cs| == |pat| - 1 && pat[|pat| - 1] == CLOSE)
    ensures ClassItems(pat, p) == (Plains(cs), p + |cs|)
    decreases |cs|
  {
    if cs != [] {
      assert pat[p] == cs[0] && pat[p + 1..p + 1 + |cs[1..]|] == cs[1..];
      if |cs| > 1 { assert pat[p + 1] == cs[1]; }
      PlainItems(pat, p + 1, cs[1..]);
      assert Plains(cs) == [Plain(cs[0])] + Plains(cs[1..]);
    } else {
      assert Plains(cs) == [];
    }
  }

  /** Characters between brackets match any one of them; with a caret in front any other character. A class that
      is not closed ends with the pattern. */
  lemma SetMeans(cs: seq<Char>, negated: bool, closed: bool, s: seq<Char>, nocase: bool)
    requires ClassChars(cs)
    ensures Matches(Tokens(Set(cs, negated, closed), 0), s, nocase) <==>
            |s| == 1 && (negated <==>
              !exists i :: 0 <= i < |cs| && (cs[i] == s[0] || (nocase && OtherCase(s[0], cs[i]))))
  {
    hide Matches, Same;
    var pat, start := Set(cs, negated, closed), if negated then 2 else 1;
    assert pat[start..start + |cs|] == cs;
    assert !negated && cs != [] ==> pat[1] == cs[0];
    PlainItems(pat, start, cs);
    assert TokenAt(pat, 0) == (Class(negated, Plains(cs)), |pat|);
    OneClass(pat, negated, Plains(cs), s, nocase);
    if |s| == 1 { PlainsAccept(cs, s[0], nocase); }
  }

  lemma PlainsAccept(cs: seq<Char>, c: Char, nocase: bool)
    ensures ItemsAccept(Plains(cs), c, nocase) <==>
            exists i :: 0 <= i < |cs| && (cs[i] == c || (nocase && OtherCase(c, cs[i])))
  {
    forall i | 0 <= i < |cs|
      ensures ItemAccepts(Plains(cs)[i], c, nocase) <==> cs[i] == c || (nocase && OtherCase(c, cs[i]))
    {
      SameMeans(cs[i], c, nocase);
    }
    if i :| 0 <= i < |cs| && (cs[i] == c || (nocase && OtherCase(c, cs[i]))) {
      assert ItemAccepts(Plains(cs)[i], c, nocase);
    }
  }

  /** A range matches what lies between its ends, whichever is the larger. */
  lemma RangeMeans(from: Char, to: Char, s: seq<Char>)
    requires from != CLOSE && from != BACKSLASH && from != DASH && from != CARET
    ensures Matches(Tokens([OPEN, from, DASH, to, CLOSE], 0), s, false) <==>
            |s| == 1 && (from <= s[0] <= to || to <= s[0] <= from)
  {
    hide Matches;
    RangeRead(from, to);
    OneClass([OPEN, from, DASH, to, CLOSE], false, [Span(from, to)], s, false);
    if |s| == 1 { OneItem(Span(from, to), s[0], false); }
  }

  lemma RangeRead(from: Char, to: Char)
    requires from != CLOSE && from != BACKSLASH && from != DASH && from != CARET
    ensures Tokens([OPEN, from, DASH, to, CLOSE], 0) == [Class(false, [Span(from, to)])]
  {
    var pat: seq<Char> := [OPEN, from, DASH, to, CLOSE];
    assert ClassItems(pat, 4) == ([], 4);
    assert ClassItems(pat, 1) == ([Span(from, to)] + [], 4);
    assert [Span(from, to)] + [] == [Span(from, to)];
    OnlyToken(pat, Class(false, [Span(from, to)]));
  }

  lemma OnlyToken(pat: seq<Char>, t: Token)
    requires pat != [] && TokenAt(pat, 0) == (t, |pat|)
    ensures Tokens(pat, 0) == [t]
  {
    hide TokenAt;
    assert Tokens(pat, |pat|) == [];
  }

  lemma OneItem(item: Item, c: Char, nocase: bool)
    ensures ItemsAccept([item], c, nocase) <==> ItemAccepts(item, c, nocase)
  {
    if ItemAccepts(item, c, nocase) { assert ItemAccepts([item][0], c, nocase); }
  }

  /** Where case is ignored a range of small letters matches the capital ones too, and the other way round. */
  lemma RangeOfLetters(from: Char, to: Char, s: seq<Char>)
    requires (97 <= from <= to <= 122) || (65 <= from <= to <= 90)
    ensures Matches(Tokens([OPEN, from, DASH, to, CLOSE], 0), s, true) <==>
            |s| == 1 && (from <= s[0] <= to || (97 <= from && from <= s[0] + 32 <= to && 65 <= s[0] <= 90)
                         || (from <= 90 && from <= s[0] - 32 <= to && 97 <= s[0] <= 122))
  {
    hide Matches;
    RangeRead(from, to);
    OneClass([OPEN, from, DASH, to, CLOSE], false, [Span(from, to)], s, true);
    if |s| == 1 { OneItem(Span(from, to), s[0], true); }
  }

  /** In a class a backslash makes a character stand for itself, even where case is ignored. */
  lemma EscapedInClass(x: Char, s: seq<Char>, nocase: bool)
    ensures Matches(Tokens([OPEN, BACKSLASH, x, CLOSE], 0), s, nocase) <==> s == [x]
  {
    hide Matches;
    var pat: seq<Char> := [OPEN, BACKSLASH, x, CLOSE];
    assert ClassItems(pat, 3) == ([], 3);
    assert ClassItems(pat, 1) == ([Escaped(x)] + [], 3);
    assert [Escaped(x)] + [] == [Escaped(x)];
    OnlyToken(pat, Class(false, [Escaped(x)]));
    OneClass(pat, false, [Escaped(x)], s, nocase);
    if |s| == 1 { OneItem(Escaped(x), s[0], nocase); }
  }
}
