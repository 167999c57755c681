/** Glob matching: what a pattern means, and the pointer loop that decides it. Characters are signed bytes;
    a pattern ends with a zero that may be read but not passed. */
module Glob {

  type Char = c: int | -128 <= c < 128

  const NUL: Char := 0
  const STAR: Char := 42
  const DASH: Char := 45
  const QUESTION: Char := 63
  const OPEN: Char := 91
  const BACKSLASH: Char := 92
  const CLOSE: Char := 93
  const CARET: Char := 94

  function ToLower(c: Char): Char { if 65 <= c <= 90 then c + 32 else c }

  // --- what a pattern means --------------------------------------------------------------------------------------

  datatype Item = Plain(c: Char) | Escaped(c: Char) | Span(from: Char, to: Char)

  datatype Token = Star | Any | Class(negated: bool, items: seq<Item>) | Lit(c: Char)

  /** The items of a class and the place of the bracket that closes it, or the end of the pattern. */
  function ClassItems(pat: seq<Char>, p: nat): (r: (seq<Item>, nat))
    requires p <= |pat|
    ensures p <= r.1 <= |pat|
    decreases |pat| - p
  {
    if p == |pat| || (pat[p] == CLOSE) then ([], p)
    else if pat[p] == BACKSLASH && p + 1 < |pat| then
      var (items, end) := ClassItems(pat, p + 2);
      ([Escaped(pat[p + 1])] + items, end)
    else if p + 2 < |pat| && pat[p + 1] == DASH then
      var (items, end) := ClassItems(pat, p + 3);
      ([Span(pat[p], pat[p + 2])] + items, end)
    else
      var (items, end) := ClassItems(pat, p + 1);
      ([Plain(pat[p])] + items, end)
  }

  /** The token at a place of the pattern and the place after it. */
  function TokenAt(pat: seq<Char>, p: nat): (r: (Token, nat))
    requires p < |pat|
    ensures p < r.1 <= |pat|
  {
    if pat[p] == STAR then (Star, p + 1)
    else if pat[p] == QUESTION then (Any, p + 1)
    else if pat[p] == OPEN then
      var negated := p + 1 < |pat| && pat[p + 1] == CARET;
      var (items, end) := ClassItems(pat, if negated then p + 2 else p + 1);
      (Class(negated, items), if end < |pat| then end + 1 else end)
    else if pat[p] == BACKSLASH && p + 1 < |pat| then (Lit(pat[p + 1]), p + 2)
    else (Lit(pat[p]), p + 1)
  }

  function Tokens(pat: seq<Char>, p: nat): (r: seq<Token>)
    requires p <= |pat|
    decreases |pat| - p
  {
    if p == |pat| then [] else [TokenAt(pat, p).0] + Tokens(pat, TokenAt(pat, p).1)
  }

  predicate Same(a: Char, b: Char, nocase: bool) {
    if nocase then ToLower(a) == ToLower(b) else a == b
  }

  /** An escaped character stands for itself even where case is ignored; a range is put in order first and
      folded afterwards. */
  predicate ItemAccepts(item: Item, c: Char, nocase: bool) {
    match item
    case Plain(x) => Same(x, c, nocase)
    case Escaped(x) => x == c
    case Span(from, to) =>
      var lo, hi := if from > to then to else from, if from > to then from else to;
      if nocase then ToLower(lo) <= ToLower(c) <= ToLower(hi) else lo <= c <= hi
  }

  ghost predicate ItemsAccept(items: seq<Item>, c: Char, nocase: bool) {
    exists i :: 0 <= i < |items| && ItemAccepts(items[i], c, nocase)
  }

  ghost predicate Accepts(t: Token, c: Char, nocase: bool) {
    match t
    case Star => true
    case Any => true
    case Class(negated, items) => ItemsAccept(items, c, nocase) != negated
    case Lit(x) => Same(x, c, nocase)
  }

  /** The cuts divide the string into one piece for each token: any stretch for a star, and one character
      that it accepts for every other token. */
  ghost predicate Divides(cuts: seq<nat>, toks: seq<Token>, s: seq<Char>, nocase: bool) {
    && |cuts| == |toks| + 1 && cuts[0] == 0 && cuts[|toks|] == |s|
    && (forall i :: 0 <= i < |toks| ==> Piece(cuts[i], cuts[i + 1], toks[i], s, nocase))
  }

  ghost predicate Piece(a: nat, b: nat, t: Token, s: seq<Char>, nocase: bool) {
    a <= b <= |s| && (t.Star? || (b == a + 1 && Accepts(t, s[a], nocase)))
  }

  ghost predicate Matches(toks: seq<Token>, s: seq<Char>, nocase: bool) {
    exists cuts :: Divides(cuts, toks, s, nocase)
  }

  // --- how matches come apart ------------------------------------------------------------------------------------

  lemma MatchNothing(s: seq<Char>, nocase: bool)
    ensures Matches([], s, nocase) <==> s == []
  {
    if s == [] { assert Divides([0], [], s, nocase); }
  }

  /** Cut off the first piece, or put one in front. */
  lemma DividesTail(cuts: seq<nat>, t: Token, rest: seq<Token>, s: seq<Char>, nocase: bool)
    requires Divides(cuts, [t] + rest, s, nocase)
    ensures Piece(0, cuts[1], t, s, nocase) && Matches(rest, s[cuts[1]..], nocase)
  {
    hide Accepts;
    var k := cuts[1];
    assert Piece(cuts[0], cuts[1], ([t] + rest)[0], s, nocase);
    CutsRise(cuts, [t] + rest, s, nocase, 1);
    var c := seq(|rest| + 1, i requires 0 <= i <= |rest| => cuts[i + 1] - k);
    forall i | 0 <= i < |rest| ensures Piece(c[i], c[i + 1], rest[i], s[k..], nocase) {
      assert Piece(cuts[i + 1], cuts[i + 2], ([t] + rest)[i + 1], s, nocase);
    }
    assert Divides(c, rest, s[k..], nocase);
  }

  lemma {:induction false} CutsRise(cuts: seq<nat>, toks: seq<Token>, s: seq<Char>, nocase: bool, i: nat)
    requires Divides(cuts, toks, s, nocase) && i < |cuts|
    ensures forall j :: i <= j < |cuts| ==> cuts[i] <= cuts[j]
    decreases |cuts| - i
  {
    hide Accepts;
    if i < |toks| {
      CutsRise(cuts, toks, s, nocase, i + 1);
      assert Piece(cuts[i], cuts[i + 1], toks[i], s, nocase);
    }
  }

  lemma DividesCons(k: nat, t: Token, rest: seq<Token>, s: seq<Char>, nocase: bool)
    requires Piece(0, k, t, s, nocase) && Matches(rest, s[k..], nocase)
    ensures Matches([t] + rest, s, nocase)
  {
    hide Accepts;
    var c :| Divides(c, rest, s[k..], nocase);
    var cuts := [0] + seq(|c|, i requires 0 <= i < |c| => c[i] + k);
    forall i | 0 <= i < |rest| + 1 ensures Piece(cuts[i], cuts[i + 1], ([t] + rest)[i], s, nocase) {
      if i > 0 { assert Piece(c[i - 1], c[i], rest[i - 1], s[k..], nocase); }
    }
    assert Divides(cuts, [t] + rest, s, nocase);
  }

  lemma MatchOne(t: Token, rest: seq<Token>, s: seq<Char>, nocase: bool)
    requires !t.Star?
    ensures Matches([t] + rest, s, nocase) <==> s != [] && Accepts(t, s[0], nocase) && Matches(rest, s[1..], nocase)
  {
    hide Accepts;
    if Matches([t] + rest, s, nocase) {
      var cuts :| Divides(cuts, [t] + rest, s, nocase);
      DividesTail(cuts, t, rest, s, nocase);
    }
    if s != [] && Accepts(t, s[0], nocase) && Matches(rest, s[1..], nocase) {
      DividesCons(1, t, rest, s, nocase);
    }
  }

  lemma MatchStar(rest: seq<Token>, s: seq<Char>, nocase: bool)
    ensures Matches([Star] + rest, s, nocase) <==> exists k :: 0 <= k <= |s| && Matches(rest, s[k..], nocase)
  {
    hide Accepts;
    if Matches([Star] + rest, s, nocase) {
      var cuts :| Divides(cuts, [Star] + rest, s, nocase);
      DividesTail(cuts, Star, rest, s, nocase);
    }
    if k :| 0 <= k <= |s| && Matches(rest, s[k..], nocase) {
      DividesCons(k, Star, rest, s, nocase);
    }
  }

  /** Another star after a star changes nothing. */
  lemma StarsCollapse(rest: seq<Token>, s: seq<Char>, nocase: bool)
    ensures Matches([Star] + ([Star] + rest), s, nocase) <==> Matches([Star] + rest, s, nocase)
  {
    hide Matches;
    MatchStar([Star] + rest, s, nocase);
    MatchStar(rest, s, nocase);
    if k :| 0 <= k <= |s| && Matches([Star] + rest, s[k..], nocase) {
      MatchStar(rest, s[k..], nocase);
      var j :| 0 <= j <= |s[k..]| && Matches(rest, s[k..][j..], nocase);
      assert s[k..][j..] == s[k + j..];
    }
    assert s[0..] == s;
  }

  // --- the decision ----------------------------------------------------------------------------------------------

  /** Reading a pattern: up to its terminating zero and no further. */
  function At(pat: seq<Char>, p: nat): (c: Char)
    requires p <= |pat|
  {
    if p == |pat| then NUL else pat[p]
  }

  ghost predicate MatchesFrom(pat: seq<Char>, p: nat, str: seq<Char>, q: nat, nocase: bool)
    requires p <= |pat| && q <= |str|
  {
    Matches(Tokens(pat, p), str[q..], nocase)
  }

  lemma ItemsCons(item: Item, items: seq<Item>, c: Char, nocase: bool)
    ensures ItemsAccept([item] + items, c, nocase) <==> ItemAccepts(item, c, nocase) || ItemsAccept(items, c, nocase)
  {
    hide ItemAccepts;
    if ItemAccepts(item, c, nocase) { assert ItemAccepts(([item] + items)[0], c, nocase); }
    if i :| 0 <= i < |items| && ItemAccepts(items[i], c, nocase) {
      assert ItemAccepts(([item] + items)[i + 1], c, nocase);
    }
  }

  lemma ClassStep(pat: seq<Char>, p: nat, c: Char, nocase: bool)
    requires p < |pat| && pat[p] != CLOSE
    ensures var (items, end) := ClassItems(pat, p);
            var (item, next) := if pat[p] == BACKSLASH && p + 1 < |pat| then (Escaped(pat[p + 1]), p + 2)
                                else if p + 2 < |pat| && pat[p + 1] == DASH then (Span(pat[p], pat[p + 2]), p + 3)
                                else (Plain(pat[p]), p + 1);
            && next <= |pat| && end == ClassItems(pat, next).1
            && (ItemsAccept(items, c, nocase) <==>
               ItemAccepts(item, c, nocase) || ItemsAccept(ClassItems(pat, next).0, c, nocase))
  {
    hide ItemAccepts, ItemsAccept;
    var (item, next) := if pat[p] == BACKSLASH && p + 1 < |pat| then (Escaped(pat[p + 1]), p + 2)
                        else if p + 2 < |pat| && pat[p + 1] == DASH then (Span(pat[p], pat[p + 2]), p + 3)
                        else (Plain(pat[p]), p + 1);
    ItemsCons(item, ClassItems(pat, next).0, c, nocase);
  }

  /** The loop over a class, from after its bracket and caret; it ends at the closing bracket, or on the last
      character of a pattern that does not close it. */
  method MatchClass(pat: seq<Char>, start: nat, c: Char, nocase: bool) returns (p: nat, found: bool)
    requires 0 < start <= |pat|
    ensures var (items, end) := ClassItems(pat, start);
            found == ItemsAccept(items, c, nocase) && p == if end < |pat| then end else |pat| - 1
  {
    hide ItemsAccept, ItemAccepts, Same;
    p, found := start, false;
    while true
      invariant 0 < p <= |pat| && ClassItems(pat, p).1 == ClassItems(pat, start).1
      invariant ItemsAccept(ClassItems(pat, start).0, c, nocase) ==
          (found || ItemsAccept(ClassItems(pat, p).0, c, nocase))
      decreases |pat| - p
    {
      if p < |pat| && pat[p] != CLOSE { ClassStep(pat, p, c, nocase); }
      if At(pat, p) == BACKSLASH && |pat| - p >= 2 {
        p := p + 1;
        EscapedAccepts(At(pat, p), c, nocase);
        if At(pat, p) == c {
          found := true;
        }
      } else if At(pat, p) == CLOSE {
        NoItems(c, nocase);
        return;
      } else if |pat| - p == 0 {
        NoItems(c, nocase);
        p := p - 1;
        return;
      } else if At(pat, p + 1) == DASH && |pat| - p >= 3 {
        var from, to, x := At(pat, p), At(pat, p + 2), c;
        SpanAccepts(from, to, c, nocase);
        if from > to {
          from, to := to, from;
        }
        if nocase {
          from, to, x := ToLower(from), ToLower(to), ToLower(x);
        }
        p := p + 2;
        if from <= x <= to {
          found := true;
        }
      } else {
        PlainAccepts(At(pat, p), c, nocase);
        if !nocase {
          if At(pat, p) == c {
            found := true;
          }
        } else if ToLower(At(pat, p)) == ToLower(c) {
          found := true;
        }
      }
      p := p + 1;
    }
  }

  lemma NoItems(c: Char, nocase: bool)
    ensures !ItemsAccept([], c, nocase)
  {
  }

  lemma EscapedAccepts(x: Char, c: Char, nocase: bool)
    ensures ItemAccepts(Escaped(x), c, nocase) <==> x == c
  {
  }

  lemma PlainAccepts(x: Char, c: Char, nocase: bool)
    ensures ItemAccepts(Plain(x), c, nocase) <==> if nocase then ToLower(x) == ToLower(c) else x == c
  {
  }

  lemma SpanAccepts(from: Char, to: Char, c: Char, nocase: bool)
    ensures var lo, hi := if from > to then to else from, if from > to then from else to;
            ItemAccepts(Span(from, to), c, nocase) <==>
            if nocase then ToLower(lo) <= ToLower(c) <= ToLower(hi) else lo <= c <= hi
  {
  }

  /** A token other than a star takes one character. */
  lemma TakeOne(pat: seq<Char>, p: nat, str: seq<Char>, q: nat, nocase: bool)
    requires p < |pat| && pat[p] != STAR && q < |str|
    ensures MatchesFrom(pat, p, str, q, nocase) <==>
            Accepts(TokenAt(pat, p).0, str[q], nocase) && MatchesFrom(pat, TokenAt(pat, p).1, str, q + 1, nocase)
  {
    hide Accepts, Matches;
    var (t, next) := TokenAt(pat, p);
    assert str[q..][1..] == str[q + 1..];
    MatchOne(t, Tokens(pat, next), str[q..], nocase);
  }

  /** Only stars match the empty string. */
  lemma AtEnd(pat: seq<Char>, p: nat, str: seq<Char>, nocase: bool)
    requires p <= |pat| && (p < |pat| ==> pat[p] != STAR)
    ensures MatchesFrom(pat, p, str, |str|, nocase) <==> p == |pat|
  {
    hide Accepts, Matches;
    assert str[|str|..] == [];
    if p == |pat| {
      MatchNothing([], nocase);
    } else {
      MatchOne(TokenAt(pat, p).0, Tokens(pat, TokenAt(pat, p).1), [], nocase);
    }
  }

  lemma NoPatternLeft(pat: seq<Char>, str: seq<Char>, q: nat, nocase: bool)
    requires q < |str|
    ensures !MatchesFrom(pat, |pat|, str, q, nocase)
  {
    hide Matches;
    MatchNothing(str[q..], nocase);
  }

  lemma StarThenStar(pat: seq<Char>, p: nat, str: seq<Char>, q: nat, nocase: bool)
    requires p + 1 < |pat| && pat[p] == STAR && pat[p + 1] == STAR && q <= |str|
    ensures MatchesFrom(pat, p, str, q, nocase) <==> MatchesFrom(pat, p + 1, str, q, nocase)
  {
    hide Matches;
    StarsCollapse(Tokens(pat, p + 2), str[q..], nocase);
  }

  /** What a star needs of the rest of the pattern. */
  lemma StarFrom(pat: seq<Char>, p: nat, rest: nat, str: seq<Char>, q: nat, nocase: bool)
    requires p < |pat| && pat[p] == STAR && rest == p + 1 && q <= |str|
    ensures MatchesFrom(pat, p, str, q, nocase) <==>
            exists k :: q <= k <= |str| && MatchesFrom(pat, rest, str, k, nocase)
  {
    hide Matches;
    MatchStar(Tokens(pat, p + 1), str[q..], nocase);
    if j :| 0 <= j <= |str[q..]| && Matches(Tokens(pat, p + 1), str[q..][j..], nocase) {
      assert str[q..][j..] == str[q + j..];
      assert MatchesFrom(pat, rest, str, q + j, nocase);
    }
    if k :| q <= k <= |str| && MatchesFrom(pat, rest, str, k, nocase) {
      assert str[q..][k - q..] == str[k..];
    }
  }

  /** A final star matches everything. */
  lemma FinalStar(pat: seq<Char>, str: seq<Char>, q: nat, nocase: bool)
    requires |pat| > 0 && pat[|pat| - 1] == STAR && q <= |str|
    ensures MatchesFrom(pat, |pat| - 1, str, q, nocase)
  {
    hide Matches;
    StarFrom(pat, |pat| - 1, |pat|, str, q, nocase);
    MatchNothing([], nocase);
    assert str[|str|..] == [];
    assert MatchesFrom(pat, |pat|, str, |str|, nocase);
  }

  /** A token other than a star against one character; `next` is where the pattern goes on if it fits. */
  method MatchToken(pat: seq<Char>, p: nat, c: Char, nocase: bool) returns (next: nat, ok: bool)
    requires p < |pat| && pat[p] != STAR
    ensures next == TokenAt(pat, p).1 && ok == Accepts(TokenAt(pat, p).0, c, nocase)
  {
    hide ClassItems, ItemsAccept;
    next := p;
    if At(pat, p) == QUESTION {
      ok := true;
    } else if At(pat, p) == OPEN {
      next := next + 1;
      var notflag := At(pat, next) == CARET;
      if notflag {
        next := next + 1;
      }
      var found;
      next, found := MatchClass(pat, next, c, nocase);
      ok := found != notflag;
    } else {
      if At(pat, p) == BACKSLASH && |pat| - p >= 2 {
        next := next + 1;
      }
      ok := if !nocase then At(pat, next) == c else ToLower(At(pat, next)) == ToLower(c);
    }
    next := next + 1;
  }

  lemma NoMoreStarts(pat: seq<Char>, p: nat, rest: nat, str: seq<Char>, q: nat, nocase: bool)
    requires p < |pat| && pat[p] == STAR && rest == p + 1 < |pat| && pat[rest] != STAR && q <= |str|
    requires forall k :: q <= k < |str| ==> !MatchesFrom(pat, rest, str, k, nocase)
    ensures !MatchesFrom(pat, p, str, q, nocase)
  {
    hide MatchesFrom;
    StarFrom(pat, p, p + 1, str, q, nocase);
    AtEnd(pat, rest, str, nocase);
  }

  /** What comes after a star, tried at every place of the string that has a character left. */
  method MatchAfterStar(pat: seq<Char>, p0: nat, str: seq<Char>, q0: nat, nocase: bool) returns (r: bool)
    requires p0 < |pat| && pat[p0] == STAR && q0 < |str|
    ensures r == MatchesFrom(pat, p0, str, q0, nocase)
    decreases |pat| - p0, 0
  {
    hide MatchesFrom;
    var p := p0;
    while At(pat, p + 1) == STAR
      invariant p0 <= p < |pat| && pat[p] == STAR
      invariant MatchesFrom(pat, p0, str, q0, nocase) == MatchesFrom(pat, p, str, q0, nocase)
      decreases |pat| - p
    {
      StarThenStar(pat, p, str, q0, nocase);
      p := p + 1;
    }
    if |pat| - p == 1 {
      FinalStar(pat, str, q0, nocase);
      return true;
    }
    var rest, q := p + 1, q0;
    while q < |str|
      invariant q0 <= q <= |str|
      invariant forall k :: q0 <= k < q ==> !MatchesFrom(pat, rest, str, k, nocase)
    {
      var found := StringMatchLen(pat, rest, str, q, nocase);
      if found {
        StarFrom(pat, p, p + 1, str, q0, nocase);
        return true;
      }
      q := q + 1;
    }
    NoMoreStarts(pat, p, rest, str, q0, nocase);
    return false;
  }

  /** The rest of a pattern against the rest of a string. A string that is empty from the start is matched by
      the empty pattern alone; every other answer is what the pattern means. */
  method StringMatchLen(pat: seq<Char>, p0: nat, str: seq<Char>, q0: nat, nocase: bool) returns (r: bool)
    requires p0 <= |pat| && q0 <= |str|
    ensures r == if q0 == |str| then p0 == |pat| else MatchesFrom(pat, p0, str, q0, nocase)
    decreases |pat| - p0, 1
  {
    hide MatchesFrom, Accepts, TokenAt;
    var p, q := p0, q0;
    while p < |pat| && q < |str|
      invariant p0 <= p <= |pat| && q0 <= q && if q0 < |str| then q < |str| else p == p0 && q == q0
      invariant q0 < |str| ==> MatchesFrom(pat, p0, str, q0, nocase) == MatchesFrom(pat, p, str, q, nocase)
      decreases |pat| - p
    {
      if At(pat, p) == STAR {
        r := MatchAfterStar(pat, p, str, q, nocase);
        return;
      }
      TakeOne(pat, p, str, q, nocase);
      var next, ok := MatchToken(pat, p, str[q], nocase);
      if !ok {
        return false;
      }
      p, q := next, q + 1;
      if q == |str| {
        while At(pat, p) == STAR
          invariant p0 <= p <= |pat| && MatchesFrom(pat, p0, str, q0, nocase) == MatchesFrom(pat, p, str, q, nocase)
          decreases |pat| - p
        {
          StarAtEnd(pat, p, str, nocase);
          p := p + 1;
        }
        AtEnd(pat, p, str, nocase);
        break;
      }
    }
    if p == |pat| && q < |str| { NoPatternLeft(pat, str, q, nocase); }
    return p == |pat| && q == |str|;
  }

  lemma StarAtEnd(pat: seq<Char>, p: nat, str: seq<Char>, nocase: bool)
    requires p < |pat| && pat[p] == STAR
    ensures MatchesFrom(pat, p, str, |str|, nocase) <==> MatchesFrom(pat, p + 1, str, |str|, nocase)
  {
    hide MatchesFrom;
    StarFrom(pat, p, p + 1, str, |str|, nocase);
  }

  ghost predicate AllStars(pat: seq<Char>) { forall i :: 0 <= i < |pat| ==> pat[i] == STAR }

  /** Patterns of stars alone, and no others, mean something that the empty string matches. */
  lemma {:induction false} EmptyMatched(pat: seq<Char>, p: nat, nocase: bool)
    requires p <= |pat|
    ensures Matches(Tokens(pat, p), [], nocase) <==> AllStars(pat[p..])
    decreases |pat| - p
  {
    hide Matches;
    if p == |pat| {
      MatchNothing([], nocase);
    } else if pat[p] == STAR {
      EmptyMatched(pat, p + 1, nocase);
      MatchStar(Tokens(pat, p + 1), [], nocase);
      var none: seq<Char> := [];
      assert none[0..] == none;
      assert pat[p..] == [STAR] + pat[p + 1..];
    } else {
      MatchOne(TokenAt(pat, p).0, Tokens(pat, TokenAt(pat, p).1), [], nocase);
      assert pat[p..][0] != STAR;
    }
  }

  /** The whole pattern against the whole string: the answer is what the pattern means, except that a pattern
      of stars does not match the empty string. */
  method StringMatch(pattern: seq<Char>, str: seq<Char>, nocase: bool) returns (r: bool)
    ensures str == [] ==> r == (pattern == [])
    ensures r == Matches(Tokens(pattern, 0), str, nocase) <==> str != [] || pattern == [] || !AllStars(pattern)
  {
    hide Matches, Tokens, AllStars;
    assert str[0..] == str && pattern[0..] == pattern;
    EmptyMatched(pattern, 0, nocase);
    AllStarsNone(pattern);
    r := StringMatchLen(pattern, 0, str, 0, nocase);
  }

  lemma AllStarsNone(pat: seq<Char>)
    ensures pat == [] ==> AllStars(pat)
  {
  }

  // --- writing patterns ------------------------------------------------------------------------------------------

  /** Items that can be written so that they are read as what they are. */
  predicate Writable(item: Item) {
    item.Escaped? || var x := if item.Plain? then item.c else item.from; x !in {CLOSE, BACKSLASH, DASH, CARET}
  }

  predicate WritableToken(t: Token) { t.Class? ==> forall i :: 0 <= i < |t.items| ==> Writable(t.items[i]) }

  function WriteItem(item: Item): seq<Char> {
    match item
    case Plain(x) => [x]
    case Escaped(x) => [BACKSLASH, x]
    case Span(from, to) => [from, DASH, to]
  }

  function WriteItems(items: seq<Item>): seq<Char> {
    if items == [] then [] else WriteItem(items[0]) + WriteItems(items[1..])
  }

  /** Characters that mean themselves wherever they stand outside a class. */
  predicate Ordinary(c: Char) { c != STAR && c != QUESTION && c != OPEN && c != BACKSLASH }

  function WriteToken(t: Token): seq<Char> {
    match t
    case Star => [STAR]
    case Any => [QUESTION]
    case Lit(x) => if Ordinary(x) then [x] else [BACKSLASH, x]
    case Class(negated, items) => [OPEN] + (if negated then [CARET] else []) + WriteItems(items) + [CLOSE]
  }

  function Write(toks: seq<Token>): seq<Char> {
    if toks == [] then [] else WriteToken(toks[0]) + Write(toks[1..])
  }

  lemma Follows(pat: seq<Char>, p: nat, w: seq<Char>, more: seq<Char>)
    requires p <= |pat| && pat[p..] == w + more
    ensures p + |w| <= |pat| && pat[p + |w|..] == more
    ensures forall i :: p <= i < p + |w| ==> pat[i] == w[i - p]
  {
    assert forall i :: p <= i < p + |w| ==> pat[i] == pat[p..][i - p];
    assert pat[p + |w|..] == pat[p..][|w|..];
  }

  lemma ReadItem(pat: seq<Char>, p: nat, item: Item, more: seq<Char>)
    requires Writable(item) && p <= |pat| && pat[p..] == WriteItem(item) + more
    requires more != [] && (item.Plain? ==> more[0] != DASH)
    ensures var q := p + |WriteItem(item)|;
            q <= |pat| && pat[q..] == more
                && ClassItems(pat, p) == ([item] + ClassItems(pat, q).0, ClassItems(pat, q).1)
  {
    var w := WriteItem(item);
    Follows(pat, p, w, more);
    assert pat[p + |w|..][0] == more[0];
  }

  lemma {:induction false} ReadItems(pat: seq<Char>, p: nat, items: seq<Item>, rest: seq<Char>)
    requires forall i :: 0 <= i < |items| ==> Writable(items[i])
    requires p <= |pat| && pat[p..] == WriteItems(items) + [CLOSE] + rest
    ensures ClassItems(pat, p) == (items, p + |WriteItems(items)|)
    decreases |items|
  {
    hide WriteItem, Writable;
    if items == [] {
      assert pat[p..][0] == CLOSE;
    } else {
      hide ClassItems;
      var w, more := WriteItem(items[0]), WriteItems(items[1..]) + [CLOSE] + rest;
      assert pat[p..] == w + more;
      FirstNotDash(items[1..], rest);
      ReadItem(pat, p, items[0], more);
      ReadItems(pat, p + |w|, items[1..], rest);
      assert items == [items[0]] + items[1..];
    }
  }

  lemma FirstNotDash(items: seq<Item>, rest: seq<Char>)
    requires forall i :: 0 <= i < |items| ==> Writable(items[i])
    ensures (WriteItems(items) + [CLOSE] + rest)[0] != DASH
  {
  }

  lemma NotCaret(items: seq<Item>, rest: seq<Char>)
    requires forall i :: 0 <= i < |items| ==> Writable(items[i])
    ensures (WriteItems(items) + [CLOSE] + rest)[0] != CARET
  {
  }

  lemma ReadToken(pat: seq<Char>, p: nat, t: Token, rest: seq<Char>)
    requires p <= |pat| && WritableToken(t) && pat[p..] == WriteToken(t) + rest
    ensures p < |pat| && TokenAt(pat, p) == (t, p + |WriteToken(t)|)
  {
    hide WriteItems, ClassItems, Writable;
    Follows(pat, p, WriteToken(t), rest);
    if t.Class? {
      var open := if t.negated then [OPEN, CARET] else [OPEN];
      var start := p + |open|;
      assert WriteToken(t) + rest == open + (WriteItems(t.items) + [CLOSE] + rest);
      Follows(pat, p, open, WriteItems(t.items) + [CLOSE] + rest);
      ReadItems(pat, start, t.items, rest);
      assert !t.negated ==> pat[p + 1] != CARET by {
        NotCaret(t.items, rest);
        assert !t.negated ==> pat[start..][0] == pat[p + 1];
      }
    }
  }

  lemma {:induction false} ReadWritten(pat: seq<Char>, p: nat, toks: seq<Token>)
    requires p <= |pat| && (forall i :: 0 <= i < |toks| ==> WritableToken(toks[i])) && pat[p..] == Write(toks)
    ensures Tokens(pat, p) == toks
    decreases |toks|
  {
    hide TokenAt, WriteToken, WritableToken;
    if toks != [] {
      ReadToken(pat, p, toks[0], Write(toks[1..]));
      Follows(pat, p, WriteToken(toks[0]), Write(toks[1..]));
      ReadWritten(pat, p + |WriteToken(toks[0])|, toks[1..]);
    }
  }

  /** Whatever tokens are written down as a pattern are what the pattern means. */
  lemma WrittenMeans(toks: seq<Token>)
    requires forall i :: 0 <= i < |toks| ==> WritableToken(toks[i])
    ensures Tokens(Write(toks), 0) == toks
  {
    assert Write(toks)[0..] == Write(toks);
    ReadWritten(Write(toks), 0, toks);
  }
}
