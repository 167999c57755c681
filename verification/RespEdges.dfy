/** The edges of the request parser: what becomes of input that is no request, which bytes are dropped with it
    and whether the client is to be closed; and what numbers and lines of words are read as. */
module RespEdges {
  import opened Decimals
  import opened Splitting
  import opened Resp
  import opened RespRuns
  import opened Texts
  import P = Pipelines

  /** The parser after a protocol error: the client is to be closed, and this is left to read. */
  function Refused(p: Parser, rest: string): Parser { p.(closing := true, buf := rest) }

  /** A text with a character in front and a line break behind, then more. */
  function Lined(c: char, text: string, rest: string): string { [c] + text + CRLF + rest }

  lemma LineEnds(c: char, text: string, rest: string, from: nat)
    requires c != '\r' && from <= 1 && CrlfFree(text)
    ensures var buf, pos := Lined(c, text, rest), |text| + 1;
            && FindCrlf(buf, from) == pos && buf != [] && buf[0] == c && buf[1..pos] == text && |buf| >= pos + 2
            && buf[pos + 2..] == rest
  {
    hide FindCrlf;
    var buf := Lined(c, text, rest);
    forall i | from <= i < |text| + 1 ensures !(buf[i] == '\r' && buf[i + 1] == '\n') {
      if 0 < i { assert i < |text| ==> buf[i] == text[i - 1] && buf[i + 1] == text[i]; }
    }
    CrlfIs(buf, from, |text| + 1);
  }

  // --- the line with the count -------------------------------------------------------------------------------------

  lemma StarTurns(p: Parser)
    requires p.Valid() && p.want == 0 && p.buf != [] && p.buf[0] == '*'
    ensures p.Turn() == p.MultiBulkBuffer()
  {
    hide Parser.MultiBulkBuffer;
  }

  /** A count that is no number, or too large a one: the line goes, and the client is to be closed. */
  lemma CountRefused(p: Parser, text: string, rest: string)
    requires p.Valid() && p.want == 0 && CrlfFree(text) && p.buf == Lined('*', text, rest)
    requires !Numeric(text) || Number(text) > 1024 * 1024
    ensures p.buf != [] && p.Turn() == (Refused(p.(multi := true), rest), -1)
  {
    hide FindCrlf, Numeric, Number, CrlfFree;
    LineEnds('*', text, rest, 0);
    StarTurns(p);
  }

  /** A count that is accepted makes room for as many arguments and forgets the last ones. The character in front
      of it is not looked at again. */
  lemma CountTaken(p: Parser, c: char, text: string, rest: string)
    requires p.Valid() && p.want == 0 && c != '\r' && CrlfFree(text) && p.buf == Lined(c, text, rest)
    requires Numeric(text) && 0 <= Number(text) <= 1024 * 1024
    ensures p.MultiBulkLen() == (p.(buf := rest, want := Number(text), argv := [], cap := Number(text)), 1)
  {
    hide FindCrlf, Numeric, Number, CrlfFree;
    LineEnds(c, text, rest, 0);
  }

  /** Where a count should be, as it should after one that was refused, an empty line is refused as well. */
  lemma EmptyLineRefused(p: Parser, rest: string)
    requires p.Valid() && p.want == 0 && p.multi && p.buf == CRLF + rest
    ensures p.Turn() == (Refused(p, rest), -1)
  {
    hide FindCrlf, Number;
    CrlfIs(p.buf, 0, 0);
    assert p.buf[1..][0] == '\n';
    assert p.buf[2..] == rest;
  }

  /** A negative count is read as a whole request, but the arguments are not reset: they are those of the
      request before. */
  lemma NegativeCount(p: Parser, text: string, rest: string)
    requires p.Valid() && p.want == 0 && CrlfFree(text) && p.buf == Lined('*', text, rest)
    requires Numeric(text) && Number(text) < 0
    ensures p.buf != [] && p.Turn() == (p.(buf := rest, multi := false), 1)
  {
    hide FindCrlf, Numeric, Number, CrlfFree;
    LineEnds('*', text, rest, 0);
    StarTurns(p);
    NothingMissing(p.(multi := true, buf := rest));
  }

  lemma NothingMissing(p: Parser)
    requires p.want == 0
    ensures p.MultiBulk() == (p, 1)
  {
  }

  /** So an idle client that is sent a negative count hands its last request on once more. */
  lemma NegativeRepeats(p: Parser, n: int)
    requires P.Idle(p) && INT64_MIN <= n < 0
    ensures Reads(p, [Lined('*', ToString(n), "")]) == (p, [p.argv])
  {
    hide ToString, Lined, Parser.Turn, Parser.ProcessInput;
    var piece := Lined('*', ToString(n), "");
    ReadPrinted(n);
    NumberFree(n);
    var t := Fed(p, piece);
    assert t.buf == piece;
    NegativeCount(t, ToString(n), "");
    assert t.(buf := "", multi := false) == p;
    P.TurnEnds(p, piece, p);
    P.NoReads(p);
    P.ReadsCons(p, piece, p, 0, [], p, []);
    assert [piece] + [] == [piece] && [p.argv] + [] == [p.argv];
  }

  lemma NumberFree(n: int)
    ensures CrlfFree(ToString(n))
  {
    hide ToString;
    forall i | 0 <= i < |ToString(n)| ensures ToString(n)[i] != '\r' {}
  }

  // --- lines without an end ----------------------------------------------------------------------------------------

  predicate Endless(s: string) { forall i :: 0 <= i && i + 1 < |s| ==> !(s[i] == '\r' && s[i + 1] == '\n') }

  /** Without a line break the parser waits for more, up to 65536 characters; with more than that the client is
      to be closed. The same for the line with the count, for a line of words ... */
  lemma EndlessLine(p: Parser)
    requires p.Valid() && p.want == 0 && p.buf != [] && Endless(p.buf)
    ensures p.Turn().1 == -1 && p.Turn().0.argv == p.argv && p.Turn().0.want == 0
    ensures |p.buf| <= 65536 ==> p.Turn().0.buf == p.buf && Unharmed(p, p.Turn().0)
    ensures |p.buf| > 65536 ==> p.Turn().0.buf == p.buf[2..] && p.Turn().0.closing
  {
    hide FindCrlf;
    CrlfNone(p.buf, 0);
  }

  /** ... and for the line with the length of an argument. */
  lemma EndlessLength(p: Parser)
    requires p.buf != [] && p.buf[0] == '$' && Endless(p.buf)
    ensures p.Bulk() == (if |p.buf| > 65536 then Refused(p, p.buf[2..]) else p, -1)
  {
    hide FindCrlf;
    CrlfNone(p.buf, 1);
  }

  // --- arguments ---------------------------------------------------------------------------------------------------

  /** An argument that starts with anything but a dollar sign: two characters go, and the client is to be closed. */
  lemma WrongStart(p: Parser)
    requires |p.buf| >= 2 && p.buf[0] != '$'
    ensures p.Bulk() == (Refused(p, p.buf[2..]), -1)
  {
  }

  /** With a single such character there is nothing to drop, and an exception instead. */
  lemma StrayThrows(p: Parser)
    requires |p.buf| == 1 && p.buf[0] != '$'
    ensures p.Bulk() == (p.(closing := true, thrown := true), -1)
  {
  }

  /** A text that is shorter or longer than announced, even by a line break within it: both lines go. */
  lemma LengthWrong(p: Parser, text: string, s: string, rest: string)
    requires CrlfFree(text) && CrlfFree(s) && p.buf == Lined('$', text, s + CRLF + rest)
    requires Numeric(text) && 0 <= Number(text) <= 512 * 1024 * 1024 && Number(text) != |s|
    ensures p.Bulk() == (Refused(p, rest), -1)
  {
    hide FindCrlf, Numeric, Number;
    var more := s + CRLF + rest;
    LineEnds('$', text, more, 1);
    BodyEnds(p, |text| + 3, s, rest);
  }

  lemma BodyEnds(p: Parser, begin: nat, s: string, rest: string)
    requires begin <= |p.buf| && p.buf[begin..] == s + CRLF + rest && CrlfFree(s)
    ensures FindCrlf(p.buf, begin) == begin + |s| && |p.buf| >= begin + |s| + 2 && p.buf[begin + |s| + 2..] == rest
    ensures p.buf[begin..begin + |s|] == s
  {
    hide FindCrlf;
    var t := s + CRLF + rest;
    assert forall i :: 0 <= i < |t| ==> p.buf[begin + i] == t[i];
    forall i | begin <= i < begin + |s| ensures !(p.buf[i] == '\r' && p.buf[i + 1] == '\n') {
      assert p.buf[i] == t[i - begin] && p.buf[i + 1] == t[i + 1 - begin];
    }
    CrlfIs(p.buf, begin, begin + |s|);
    assert p.buf[begin..begin + |s|] == s;
    assert p.buf[begin + |s| + 2..] == rest;
  }

  predicate BadLength(text: string) { !Numeric(text) || Number(text) < 0 || Number(text) > 512 * 1024 * 1024 }

  lemma BadLengthSkips(p: Parser, text: string, more: string)
    requires CrlfFree(text) && BadLength(text) && p.buf == Lined('$', text, more)
    ensures p.Bulk() == Refused(p, more).BulkBody(|text| + 3, if Numeric(text) then Number(text) else 0)
  {
    hide FindCrlf, Numeric, Number, Parser.BulkBody;
    LineEnds('$', text, more, 1);
  }

  /** After a bad length the client is to be closed and its line goes, but reading goes on behind a place
      counted from before: what is as long as that line is skipped unseen, and a line break right behind it
      makes an empty argument, if the length was no number at all. */
  lemma BadLengthGoesOn(p: Parser, text: string, skipped: string, rest: string)
    requires CrlfFree(text) && BadLength(text) && |skipped| == |text| + 3
    requires p.buf == Lined('$', text, skipped + CRLF + rest)
    ensures p.Bulk() == if !Numeric(text) then (Refused(p.(argv := p.argv + [""]), rest), 1)
                        else (Refused(p, rest), -1)
  {
    hide FindCrlf, Numeric, Number, Lined, Parser.Bulk;
    var more := skipped + CRLF + rest;
    BadLengthSkips(p, text, more);
    assert more[|text| + 3..] == "" + CRLF + rest;
    BodyEnds(Refused(p, more), |text| + 3, "", rest);
  }

  /** Whatever comes after it, a bad length closes the client. */
  lemma BadLengthCloses(p: Parser, text: string, rest: string)
    requires CrlfFree(text) && BadLength(text) && p.buf == Lined('$', text, rest)
    ensures p.Bulk().0.closing
    ensures Endless(rest) ==> p.Bulk() == (Refused(p, rest), -1)
  {
    hide FindCrlf, Numeric, Number, Lined, Parser.Bulk;
    BadLengthSkips(p, text, rest);
    if Endless(rest) { CrlfNone(rest, |text| + 3); }
  }

  // --- numbers -----------------------------------------------------------------------------------------------------

  /** A plus sign counts for nothing, leading zeros neither, and a number beyond 64 bits is taken for the
      nearest one within. */
  lemma NumberExactly(n: nat)
    ensures Numeric(Decimal(n)) && Numeric("+" + Decimal(n)) && Numeric("-" + Decimal(n))
    ensures Number("+" + Decimal(n)) == Number(Decimal(n))
    ensures Number(Decimal(n)) == if n <= 9223372036854775807 then n else 9223372036854775807
    ensures n <= 9223372036854775808 ==> Number("-" + Decimal(n)) == 0 - n
    ensures n > 9223372036854775808 ==> Number("-" + Decimal(n)) == -9223372036854775808
  {
    hide Decimal, Value;
    ValueOfDecimal(n);
    assert ("+" + Decimal(n))[1..] == Decimal(n);
    assert ("-" + Decimal(n))[1..] == Decimal(n);
  }

  /** A text without a digit counts as zero; so a star alone on its line is a request without arguments. */
  lemma NoDigits(p: Parser, rest: string)
    requires p.Valid() && p.want == 0 && p.buf == "*" + CRLF + rest
    ensures Number("") == Number("+") == Number("-") == 0
    ensures p.buf != [] && p.Turn() == (p.(buf := rest, argv := [], cap := 0, multi := false), 1)
  {
    hide FindCrlf;
    assert "+"[1..] == "" && "-"[1..] == "";
    assert p.buf == Lined('*', "", rest);
    StarTurns(p);
    CountTaken(p.(multi := true), '*', "", rest);
    NothingMissing(p.(buf := rest, argv := [], cap := 0, multi := true));
  }

  lemma {:induction false} NoLeadingZero(n: nat)
    ensures |Decimal(n)| > 1 ==> Decimal(n)[0] != '0'
    ensures n > 0 ==> Decimal(n)[0] != '0'
  {
    if n >= 10 { NoLeadingZero(n / 10); }
  }

  /** A number is printed in digits without a zero in front, and with a minus sign exactly if it is negative. */
  lemma PrintedIs(n: int)
    ensures n >= 0 ==> Digits(ToString(n)) && (|ToString(n)| > 1 ==> ToString(n)[0] != '0')
    ensures n < 0 ==> ToString(n) == "-" + ToString(-n)
  {
    if n >= 0 { NoLeadingZero(n); }
  }

  // --- words -------------------------------------------------------------------------------------------------------

  /** A word of a line: some text without spaces. */
  predicate Word(w: string) { w != "" && forall i :: 0 <= i < |w| ==> w[i] != ' ' }

  /** Words behind one another, each with some spaces in front. */
  function Spaced(words: seq<string>, gaps: seq<nat>): string
    requires |words| == |gaps|
  {
    if words == [] then "" else Spaces(gaps[0]) + words[0] + Spaced(words[1..], gaps[1..])
  }

  function Spaces(n: nat): (s: string)
    ensures |s| == n && forall i :: 0 <= i < n ==> s[i] == ' '
  {
    seq(n, i => ' ')
  }

  lemma {:induction false} SkipsTo(s: string, pos: nat, k: nat)
    requires pos <= k <= |s| && (forall i :: pos <= i < k ==> s[i] == ' ') && (k < |s| ==> s[k] != ' ')
    ensures SkipSpaces(s, pos) == k
  {
    hide SkipSpaces;
    var r := SkipSpaces(s, pos);
    assert !(k < r) && !(r < k);
  }

  lemma FindsSpace(s: string, from: nat, k: nat)
    requires from <= k <= |s| && (forall i :: from <= i < k ==> s[i] != ' ') && (k < |s| ==> s[k] == ' ')
    ensures Find(s, " ", from) == if k < |s| then k else -1
  {
    hide Find;
    var pos := Find(s, " ", from);
    if pos != -1 && pos < |s| { assert s[pos..pos + 1][0] == s[pos]; }
    if k < |s| { assert s[k..k + 1] == " "; assert Occurs(s, " ", k); }
  }

  lemma Copies(s: string, pos: nat, t: string)
    requires pos <= |s| && s[pos..] == t
    ensures |s| == pos + |t| && forall i :: pos <= i < |s| ==> s[i] == t[i - pos]
  {
  }

  /** One word of a line. */
  lemma OneWord(s: string, pos: nat, gap: nat, w: string, tail: string)
    requires pos <= |s| && s[pos..] == Spaces(gap) + w + tail && Word(w) && (tail == "" || tail[0] == ' ')
    ensures var at := pos + gap + |w|;
            Split(s, " ", pos) == [w] + (if tail == "" then [] else Split(s, " ", at + 1))
  {
    hide SkipSpaces, Find, Split;
    var t, start := Spaces(gap) + w + tail, pos + gap;
    Copies(s, pos, t);
    SkipsTo(s, pos, start);
    FindsSpace(s, start, start + |w|);
    SplitStep(s, " ", pos);
    assert s[start..start + |w|] == w;
    if tail == "" { assert s[start..] == w; }
  }

  lemma NoWord(s: string, pos: nat)
    requires pos <= |s| && forall i :: pos <= i < |s| ==> s[i] == ' '
    ensures Split(s, " ", pos) == []
  {
    SkipsTo(s, pos, |s|);
  }

  predicate Apart(gaps: seq<nat>) { forall i :: 1 <= i < |gaps| ==> gaps[i] > 0 }

  lemma {:induction false} SplitFrom(s: string, pos: nat, words: seq<string>, gaps: seq<nat>, end: nat)
    requires |words| == |gaps| && Apart(gaps) && (forall i :: 0 <= i < |words| ==> Word(words[i]))
    requires pos <= |s| && s[pos..] == Spaced(words, gaps) + Spaces(end)
    ensures Split(s, " ", pos) == words
    decreases |words|
  {
    hide Split, Spaces;
    if words == [] {
      assert forall i :: pos <= i < |s| ==> s[i] == s[pos..][i - pos];
      NoWord(s, pos);
    } else {
      var w, more, gap := words[0], words[1..], gaps[0];
      var tail := Spaced(more, gaps[1..]) + Spaces(end);
      assert s[pos..] == Spaces(gap) + w + tail;
      FirstGap(more, gaps[1..], end);
      OneWord(s, pos, gap, w, tail);
      var next := pos + gap + |w| + 1;
      if tail != "" {
        assert s[next..] == tail[1..];
        if more == [] {
          SplitFrom(s, next, [], [], end - 1);
        } else {
          SplitFrom(s, next, more, [gaps[1] - 1] + gaps[2..], end);
        }
      }
      assert [w] + more == words;
    }
  }

  lemma OneSpaceLess(n: nat)
    requires n > 0
    ensures Spaces(n) == " " + Spaces(n - 1)
  {
  }

  lemma Regroup(a: string, b: string, c: string, d: string)
    ensures (" " + a) + b + c + d == " " + (a + b + c + d)
    ensures (" " + (a + b + c + d))[1..] == a + b + c + d
  {
  }

  /** What is behind a word starts with a space, of which the rest is what is behind it. */
  lemma FirstGap(words: seq<string>, gaps: seq<nat>, end: nat)
    requires |words| == |gaps| && (words != [] ==> gaps[0] > 0)
    ensures var tail := Spaced(words, gaps) + Spaces(end);
            && (tail == "" <==> words == [] && end == 0)
            && (tail != "" ==> tail[0] == ' ')
            && (words == [] && end > 0 ==> tail[1..] == Spaced([], []) + Spaces(end - 1))
            && (words != [] ==> tail[1..] == Spaced(words, [gaps[0] - 1] + gaps[1..]) + Spaces(end))
  {
    hide Spaces;
    if words != [] {
      var fewer, rest := [gaps[0] - 1] + gaps[1..], Spaced(words[1..], gaps[1..]);
      assert fewer[1..] == gaps[1..];
      OneSpaceLess(gaps[0]);
      Regroup(Spaces(gaps[0] - 1), words[0], rest, Spaces(end));
      assert Spaced(words, fewer) == Spaces(gaps[0] - 1) + words[0] + rest;
    } else if end > 0 {
      OneSpaceLess(end);
    }
  }

  /** Words with any number of spaces between them, in front and behind are read as these words. */
  lemma WordsRead(words: seq<string>, gaps: seq<nat>, end: nat)
    requires |words| == |gaps| && Apart(gaps) && (forall i :: 0 <= i < |words| ==> Word(words[i]))
    ensures Split(Spaced(words, gaps) + Spaces(end), " ", 0) == words
  {
    hide Split;
    var s := Spaced(words, gaps) + Spaces(end);
    assert s[0..] == s;
    SplitFrom(s, 0, words, gaps, end);
  }
}
