/** What the parser makes of a written request, whole, in pieces, or with more behind it. */
module RespRuns {
  import opened Decimals
  import opened Resp
  import opened Texts

  /** The first line break is where it is and not before. */
  lemma CrlfIs(s: string, from: nat, k: nat)
    requires from <= k && k + 1 < |s| && s[k] == '\r' && s[k + 1] == '\n'
    requires forall i :: from <= i < k ==> !(s[i] == '\r' && s[i + 1] == '\n')
    ensures FindCrlf(s, from) == k
  {
    hide FindCrlf;
  }

  lemma CrlfNone(s: string, from: nat)
    requires forall i :: from <= i && i + 1 < |s| ==> !(s[i] == '\r' && s[i + 1] == '\n')
    ensures FindCrlf(s, from) == -1
  {
    hide FindCrlf;
  }

  // --- a number on a line ----------------------------------------------------------------------------------------

  function Line(c: char, n: nat): string { [c] + ToString(n) + CRLF }

  lemma LineShape(c: char, n: nat)
    requires c != '\r'
    ensures var line := Line(c, n);
            && |line| == |ToString(n)| + 3 && line[0] == c && line[1..|line| - 2] == ToString(n)
            && line[|line| - 2] == '\r' && line[|line| - 1] == '\n'
            && forall i :: 0 <= i < |line| - 2 ==> line[i] != '\r'
  {
    hide ToString;
    var line := Line(c, n);
    forall i | 0 < i < |line| - 2 ensures line[i] != '\r' { assert line[i] == ToString(n)[i - 1]; }
  }

  /** A whole line is found and read; ... */
  lemma LineReads(c: char, n: nat, rest: string, from: nat)
    requires c != '\r' && from <= 1 && n <= INT64_MAX
    ensures var buf := Line(c, n) + rest; var pos := |Line(c, n)| - 2;
            && FindCrlf(buf, from) == pos && pos > 0 && ReadNumber(buf[1..pos]) == (true, n)
            && buf[0] == c && buf[pos + 2..] == rest
  {
    hide ToString, Line, FindCrlf, Numeric, Number;
    LineShape(c, n);
    var line, buf := Line(c, n), Line(c, n) + rest;
    CrlfIs(buf, from, |line| - 2);
    assert buf[1..|line| - 2] == line[1..|line| - 2];
    ReadPrinted(n);
  }

  /** ... a part of it is not. */
  lemma LineWaits(c: char, n: nat, k: nat, from: nat)
    requires c != '\r' && k < |Line(c, n)|
    ensures FindCrlf(Line(c, n)[..k], from) == -1
  {
    hide ToString, Line, FindCrlf;
    LineShape(c, n);
    CrlfNone(Line(c, n)[..k], from);
  }

  lemma LineLength(c: char, n: nat)
    requires n <= BULK_MAX
    ensures |Line(c, n)| <= 12
  {
    assert Pow10(9) == 1000000000;
    DecimalLength(n, 9);
  }

  lemma HeaderReads(p: Parser, n: nat, rest: string)
    requires n <= MULTIBULK_MAX && p.buf == Header(n) + rest
    ensures p.MultiBulkLen() == (p.(buf := rest, want := n, argv := [], cap := n), 1)
  {
    hide ToString, FindCrlf, ReadNumber;
    assert Header(n) == Line('*', n);
    LineReads('*', n, rest, 0);
  }

  lemma HeaderWaits(p: Parser, n: nat, k: nat)
    requires n <= MULTIBULK_MAX && k < |Header(n)| && p.buf == Header(n)[..k]
    ensures p.MultiBulkLen() == (p, -1)
  {
    hide ToString, FindCrlf;
    assert Header(n) == Line('*', n);
    LineWaits('*', n, k, 0);
    LineLength('*', n);
  }

  // --- one argument ----------------------------------------------------------------------------------------------

  lemma BulkShape(s: string)
    ensures BulkText(s) == Line('$', |s|) + (s + CRLF)
  {
    hide ToString;
    assert "$" + ToString(|s|) + CRLF + s + CRLF == Line('$', |s|) + (s + CRLF);
  }

  /** The text of an argument is taken whole if it has no line break in it, and refused if it has one. */
  lemma BodyExactly(p: Parser, begin: nat, s: string, rest: string)
    requires begin <= |p.buf| && p.buf[begin..] == s + CRLF + rest
    ensures if CrlfFree(s) then p.BulkBody(begin, |s|) == (p.(argv := p.argv + [s], buf := rest), 1)
            else p.BulkBody(begin, |s|).1 == -1
  {
    hide FindCrlf;
    var t := s + CRLF + rest;
    assert forall i :: 0 <= i < |t| ==> p.buf[begin + i] == t[i];
    if CrlfFree(s) {
      forall i | begin <= i < begin + |s| ensures !(p.buf[i] == '\r' && p.buf[i + 1] == '\n') {
        assert p.buf[i] == t[i - begin] && p.buf[i + 1] == t[i + 1 - begin];
      }
      CrlfIs(p.buf, begin, begin + |s|);
      assert p.buf[begin..begin + |s|] == s;
      assert p.buf[begin + |s| + 2..] == rest;
    } else {
      var i :| 0 <= i && i + 1 < |s| && s[i] == '\r' && s[i + 1] == '\n';
      assert p.buf[begin + i] == '\r' && p.buf[begin + i + 1] == '\n';
    }
  }

  lemma BodyWaits(p: Parser, begin: nat, s: string, k: nat)
    requires CrlfFree(s) && k < |s| + 2 && begin <= |p.buf| && p.buf[begin..] == (s + CRLF)[..k]
    ensures p.BulkBody(begin, |s|) == (p, -1)
  {
    hide FindCrlf;
    var t := (s + CRLF)[..k];
    forall i | begin <= i && i + 1 < |p.buf| ensures !(p.buf[i] == '\r' && p.buf[i + 1] == '\n') {
      assert p.buf[i] == t[i - begin] && p.buf[i + 1] == t[i + 1 - begin];
    }
    CrlfNone(p.buf, begin);
  }

  /** An argument is read back exactly when it is free of line breaks. */
  lemma BulkExactly(p: Parser, s: string, rest: string)
    requires |s| <= BULK_MAX && p.buf == BulkText(s) + rest
    ensures if CrlfFree(s) then p.Bulk() == (p.(argv := p.argv + [s], buf := rest), 1) else p.Bulk().1 == -1
  {
    hide ToString, FindCrlf, ReadNumber, Line, BulkText, CrlfFree, Parser.BulkBody;
    var line, more := Line('$', |s|), s + CRLF + rest;
    BulkShape(s);
    assert p.buf == line + more;
    LineReads('$', |s|, more, 1);
    BodyExactly(p, |line|, s, rest);
  }

  lemma BulkWaits(p: Parser, s: string, k: nat)
    requires |s| <= BULK_MAX && CrlfFree(s) && k < |BulkText(s)| && p.buf == BulkText(s)[..k]
    ensures p.Bulk() == (p, -1)
  {
    hide ToString, FindCrlf, ReadNumber, Line, BulkText, CrlfFree, Parser.BulkBody;
    var line := Line('$', |s|);
    BulkShape(s);
    if k == 0 {
    } else if k < |line| {
      assert p.buf == line[..k];
      LineShape('$', |s|);
      LineWaits('$', |s|, k, 1);
      LineLength('$', |s|);
    } else {
      var more := (s + CRLF)[..k - |line|];
      assert p.buf == line + more;
      LineReads('$', |s|, more, 1);
      BodyWaits(p, |line|, s, k - |line|);
    }
  }

  // --- all arguments ---------------------------------------------------------------------------------------------

  lemma BulkTextsCons(args: seq<string>)
    requires args != []
    ensures BulkTexts(args) == BulkText(args[0]) + BulkTexts(args[1..])
  {
  }

  /** Where the parser stands in the middle of the arguments: `done` are read, `left` are not, and what the
      buffer holds is the start of their text. */
  ghost predicate Amid(p: Parser, done: seq<string>, left: seq<string>) {
    && p.multi && p.want == |done| + |left| == p.cap && p.argv == done
    && |p.buf| <= |BulkTexts(left)| && p.buf == BulkTexts(left)[..|p.buf|]
  }

  /** From there it reads as many arguments as it has the whole text of, and then waits for more or is through. */
  lemma {:induction false} AmidRun(p: Parser, done: seq<string>, left: seq<string>)
    requires Amid(p, done, left) && Sendable(left)
    ensures var (q, res) := p.MultiBulk();
            && (|p.buf| == |BulkTexts(left)| ==> res == 1 && q == p.(argv := done + left, buf := []))
            && (|p.buf| < |BulkTexts(left)| ==>
               res == -1 && q == p.(argv := q.argv, buf := q.buf) && Progressed(p, q, done, left))
    decreases |left|
  {
    hide BulkText, Parser.Bulk, CrlfFree, BulkTexts;
    if left == [] {
      assert BulkTexts(left) == [] by { NoTexts(); }
      assert done + left == done;
    } else {
      var s, more := left[0], left[1..];
      BulkTextsCons(left);
      if |p.buf| < |BulkText(s)| {
        assert p.buf == BulkText(s)[..|p.buf|];
        BulkWaits(p, s, |p.buf|);
        NotProgressed(p, done, left);
      } else {
        var rest := p.buf[|BulkText(s)|..];
        assert p.buf == BulkText(s) + rest;
        BulkExactly(p, s, rest);
        var q := p.(argv := done + [s], buf := rest);
        assert rest == BulkTexts(more)[..|rest|];
        AmidRun(q, done + [s], more);
        assert done + [s] + more == done + left && [s] + more == left;
        StepProgressed(p, q, q.MultiBulk().0, done, s, more);
      }
    }
  }

  lemma NoTexts()
    ensures BulkTexts([]) == []
  {
  }

  /** `q` stands further on than `p`, with the same text to come. */
  ghost predicate Progressed(p: Parser, q: Parser, done: seq<string>, left: seq<string>) {
    exists i :: 0 <= i < |left| && ReachedAfter(p, q, done, left, i)
  }

  ghost predicate ReachedAfter(p: Parser, q: Parser, done: seq<string>, left: seq<string>, i: nat)
    requires i <= |left|
  {
    && Amid(q, done + left[..i], left[i..])
    && |p.buf| <= |BulkTexts(left)|
    && q.buf + BulkTexts(left)[|p.buf|..] == BulkTexts(left[i..])
  }

  lemma NotProgressed(p: Parser, done: seq<string>, left: seq<string>)
    requires Amid(p, done, left) && left != []
    ensures Progressed(p, p, done, left)
  {
    hide BulkTexts;
    assert done + left[..0] == done && left[0..] == left;
    assert p.buf + BulkTexts(left)[|p.buf|..] == BulkTexts(left);
    assert ReachedAfter(p, p, done, left, 0);
  }

  lemma StepProgressed(p: Parser, q: Parser, t: Parser, done: seq<string>, s: string, more: seq<string>)
    requires |p.buf| == |BulkText(s)| + |q.buf| && |q.buf| <= |BulkTexts(more)|
    ensures Progressed(q, t, done + [s], more) ==> Progressed(p, t, done, [s] + more)
  {
    hide BulkText, BulkTexts;
    var left := [s] + more;
    BulkTextsCons(left);
    assert left[1..] == more;
    if i :| 0 <= i < |more| && ReachedAfter(q, t, done + [s], more, i) {
      assert done + [s] + more[..i] == done + left[..i + 1];
      assert more[i..] == left[i + 1..];
      assert BulkTexts(left)[|p.buf|..] == BulkTexts(more)[|q.buf|..];
      assert ReachedAfter(p, t, done, left, i + 1);
    }
  }

  // --- a request in pieces ---------------------------------------------------------------------------------------

  /** Where the parser stands after the first `m` characters of a request: still in its first line, or amid
      its arguments with the rest of the text to come. */
  ghost predicate Partway(p: Parser, args: seq<string>, m: nat) {
    && m <= |Wire(args)|
    && (InHeader(p, args, m) ||
        exists i :: 0 <= i < |args| && InArguments(p, args, m, i))
  }

  ghost predicate InHeader(p: Parser, args: seq<string>, m: nat)
    requires m <= |Wire(args)|
  {
    m < |Header(|args|)| && p.want == 0 && p.buf == Wire(args)[..m] && (m == 0 ==> !p.multi)
  }

  ghost predicate InArguments(p: Parser, args: seq<string>, m: nat, i: nat)
    requires m <= |Wire(args)| && i < |args|
  {
    && Amid(p, args[..i], args[i..]) && p.buf + Wire(args)[m..] == BulkTexts(args[i..])
    && |Header(|args|)| <= m < |Wire(args)|
  }

  /** The parser with a piece added to its buffer. */
  function Fed(p: Parser, piece: string): Parser { p.(buf := p.buf + piece) }

  /** What a read leaves: nothing to wait for once the request is complete, and a parser standing partway
      before. */
  /** Neither a protocol error nor an exception since. */
  predicate Unharmed(p: Parser, q: Parser) { q.closing == p.closing && q.thrown == p.thrown }

  ghost predicate Served(q: Parser, res: int, args: seq<string>, m: nat) {
    && m <= |Wire(args)|
    && (m < |Wire(args)| ==> res == -1 && Partway(q, args, m))
    && (m == |Wire(args)| ==> res == 1 && q.argv == args && q.buf == [] && q.want == 0 && !q.multi)
    && q.Valid()
  }

  lemma AfterArguments(p: Parser, args: seq<string>, m: nat, i: nat)
    requires Sendable(args) && m <= |Wire(args)| && i <= |args| && |Header(|args|)| <= m
    requires Amid(p, args[..i], args[i..]) && p.buf + Wire(args)[m..] == BulkTexts(args[i..])
    ensures var (q, res) := p.MultiBulk();
            Served(if res == 1 then q.(want := 0, multi := false) else q, res, args, m) && Unharmed(p, q)
  {
    hide BulkTexts, Wire, Parser.MultiBulk, Header, ReachedAfter;
    var left := args[i..];
    AmidRun(p, args[..i], left);
    assert args[..i] + left == args;
    var (q, res) := p.MultiBulk();
    assert |p.buf| + (|Wire(args)| - m) == |BulkTexts(left)|;
    if m < |Wire(args)| {
      var j :| 0 <= j < |left| && ReachedAfter(p, q, args[..i], left, j);
      StillPartway(p, q, args, m, i, j);
    }
  }

  lemma StillPartway(p: Parser, q: Parser, args: seq<string>, m: nat, i: nat, j: nat)
    requires m < |Wire(args)| && i + j < |args| && |Header(|args|)| <= m
    requires p.buf + Wire(args)[m..] == BulkTexts(args[i..])
    requires ReachedAfter(p, q, args[..i], args[i..], j)
    ensures Partway(q, args, m) && q.Valid()
  {
    hide BulkTexts, Wire, Header;
    assert args[..i] + args[i..][..j] == args[..i + j];
    assert args[i..][j..] == args[i + j..];
    assert BulkTexts(args[i..])[|p.buf|..] == Wire(args)[m..];
    assert InArguments(q, args, m, i + j);
  }

  /** A read that starts in the first line. */
  lemma ServeHeader(p: Parser, args: seq<string>, m: nat)
    requires Sendable(args) && 0 < m <= |Wire(args)| && p.want == 0 && p.buf == Wire(args)[..m]
    ensures p.buf[0] == '*' && Served(p.MultiBulkBuffer().0, p.MultiBulkBuffer().1, args, m)
    ensures Unharmed(p, p.MultiBulkBuffer().0)
  {
    hide BulkTexts, Parser.MultiBulk, Parser.MultiBulkLen, Header;
    HeaderStar(|args|);
    var n, t := |args|, p.(multi := true);
    if m < |Header(n)| {
      assert p.buf == Header(n)[..m];
      HeaderWaits(t, n, m);
      assert InHeader(t, args, m);
    } else {
      var rest := Wire(args)[|Header(n)|..m];
      assert p.buf == Header(n) + rest;
      HeaderReads(t, n, rest);
      var q := t.(buf := rest, want := n, argv := [], cap := n);
      assert args[..0] == [] && args[0..] == args && rest + Wire(args)[m..] == BulkTexts(args);
      assert rest == BulkTexts(args)[..|rest|];
      AfterArguments(q, args, m, 0);
    }
  }

  lemma HeaderStar(n: nat)
    ensures |Header(n)| > 0 && Header(n)[0] == '*'
  {
  }

  /** A read that starts amid the arguments. */
  lemma ServeArguments(p: Parser, args: seq<string>, k: nat, m: nat, i: nat)
    requires Sendable(args) && k < m <= |Wire(args)| && i < |args| && InArguments(p, args, k, i)
    ensures var t := Fed(p, Wire(args)[k..m]);
            && t.Valid() && Served(t.MultiBulkBuffer().0, t.MultiBulkBuffer().1, args, m)
            && Unharmed(p, t.MultiBulkBuffer().0)
  {
    hide BulkTexts, Wire, Parser.MultiBulk, Header;
    var w := Wire(args);
    var t := Fed(p, w[k..m]);
    assert p.buf + w[k..m] + w[m..] == p.buf + w[k..];
    assert t.buf == BulkTexts(args[i..])[..|t.buf|];
    AfterArguments(t, args, m, i);
  }

  /** One more piece of a request, however much of it: the parser waits, standing further on, or is through
      with all the arguments. */
  lemma FeedMore(p: Parser, args: seq<string>, k: nat, m: nat)
    requires Sendable(args) && Partway(p, args, k) && k < m <= |Wire(args)| && p.Valid() && (p.want > 0 ==> p.multi)
    ensures var t := Fed(p, Wire(args)[k..m]);
            var (q, res) := t.ProcessInput();
            && t.Valid() && (q.want > 0 ==> q.multi) && Unharmed(p, q)
            && (m < |Wire(args)| ==> res == -1 && Partway(q, args, m))
            && (m == |Wire(args)| ==> res == 0 && q.argv == args && q.buf == [] && q.want == 0 && !q.multi)
  {
    hide BulkTexts, Wire, Parser.MultiBulkBuffer, Header, InArguments, Partway;
    var t := Fed(p, Wire(args)[k..m]);
    PartwayCases(p, args, k);
    if InHeader(p, args, k) {
      assert t.buf == Wire(args)[..m];
      ServeHeader(t, args, m);
    } else {
      var i :| 0 <= i < |args| && InArguments(p, args, k, i);
      ServeArguments(p, args, k, m, i);
    }
  }

  lemma PartwayCases(p: Parser, args: seq<string>, m: nat)
    requires Partway(p, args, m)
    ensures m <= |Wire(args)| && (InHeader(p, args, m) || exists i :: 0 <= i < |args| && InArguments(p, args, m, i))
    ensures !InHeader(p, args, m) ==> p.multi
  {
  }

  /** All reads of a run of pieces: the last parser, and the requests handed on. */
  function Reads(p: Parser, pieces: seq<string>): (r: (Parser, seq<seq<string>>))
    requires p.Valid() && (p.want > 0 ==> p.multi)
    ensures r.0.Valid() && (r.0.want > 0 ==> r.0.multi)
    decreases |pieces|
  {
    if pieces == [] then (p, [])
    else
      var (q, res) := Fed(p, pieces[0]).ProcessInput();
      var (last, handed) := Reads(q, pieces[1..]);
      (last, if res == 0 then [q.argv] + handed else handed)
  }

  // --- a request with more behind it ---------------------------------------------------------------------------

  lemma {:induction false} WholeArguments(p: Parser, done: seq<string>, left: seq<string>, surplus: string)
    requires Sendable(left) && p.want == |done| + |left| && p.argv == done && p.buf == BulkTexts(left) + surplus
    ensures p.MultiBulk() == (p.(argv := done + left, buf := surplus), 1)
    decreases |left|
  {
    hide BulkText, Parser.Bulk, CrlfFree;
    if left == [] {
      assert done + left == done && BulkTexts(left) + surplus == surplus;
    } else {
      var s, more := left[0], left[1..];
      assert p.buf == BulkText(s) + (BulkTexts(more) + surplus);
      BulkExactly(p, s, BulkTexts(more) + surplus);
      WholeArguments(p.(argv := done + [s], buf := BulkTexts(more) + surplus), done + [s], more, surplus);
      assert done + [s] + more == done + left && [s] + more == left;
    }
  }

  lemma WholeRequest(p: Parser, args: seq<string>, surplus: string)
    requires Sendable(args) && p.Valid() && p.want == 0 && p.buf == Wire(args) + surplus
    ensures p.buf != [] && p.Turn() == (Parser(surplus, args, |args|, 0, false, p.closing, p.thrown), 1)
  {
    hide BulkTexts, Parser.MultiBulk, Parser.MultiBulkLen, Header;
    HeaderStar(|args|);
    var t := p.(multi := true);
    assert p.buf == Header(|args|) + (BulkTexts(args) + surplus);
    HeaderReads(t, |args|, BulkTexts(args) + surplus);
    var q := t.(buf := BulkTexts(args) + surplus, want := |args|, argv := [], cap := |args|);
    WholeArguments(q, [], args, surplus);
    assert [] + args == args;
  }
}
