/** Many requests in a row, cut into reads wherever it pleases the network: which of them are handed on, and
    when reading throws. */
module Pipelines {
  import opened Resp
  import opened Splitting
  import opened RespRuns
  import opened Texts

  /** A request as an array of arguments, or as words on a line. */
  datatype Request = Array(args: seq<string>) | Words(line: string) {

    function Bytes(): string {
      match this
      case Array(args) => Wire(args)
      case Words(line) => line + CRLF
    }

    /** The arguments it stands for. */
    function Meant(): seq<string> {
      match this
      case Array(args) => args
      case Words(line) => Split(line, " ", 0)
    }

    /** Arguments without line breaks; or a line that starts no array, is not too long and has a word in it. */
    predicate Fits() {
      match this
      case Array(args) => Sendable(args)
      case Words(line) =>
        CrlfFree(line) && |line| < INLINE_MAX && line != "" && line[0] != '*' && Split(line, " ", 0) != []
    }
  }

  function Text(reqs: seq<Request>): string {
    if reqs == [] then [] else reqs[0].Bytes() + Text(reqs[1..])
  }

  function Meanings(reqs: seq<Request>): (m: seq<seq<string>>)
    ensures |m| == |reqs|
  {
    if reqs == [] then [] else [reqs[0].Meant()] + Meanings(reqs[1..])
  }

  predicate AllFit(reqs: seq<Request>) { forall i :: 0 <= i < |reqs| ==> reqs[i].Fits() }

  predicate NoneEmpty(pieces: seq<string>) { forall i :: 0 <= i < |pieces| ==> pieces[i] != [] }

  /** Some piece ends `at` characters after the start of the first. */
  predicate EndsAt(pieces: seq<string>, at: int) {
    exists i :: 0 < i <= |pieces| && |Concat(pieces[..i])| == at
  }

  /** What the requests mean at whose end a piece ends; the first of them starts `past` characters before the
      pieces do. */
  function AtEnds(reqs: seq<Request>, past: int, pieces: seq<string>): seq<seq<string>> {
    if reqs == [] then []
    else
      var end := |reqs[0].Bytes()| - past;
      (if EndsAt(pieces, end) then [reqs[0].Meant()] else []) + AtEnds(reqs[1..], -end, pieces)
  }

  /** Nothing is waiting to be read and nothing is half read. */
  predicate Idle(p: Parser) { p.buf == [] && p.want == 0 && !p.multi }

  // --- where pieces end ------------------------------------------------------------------------------------------

  lemma EndsAtCons(piece: string, more: seq<string>, at: int)
    ensures EndsAt([piece] + more, at) <==> at == |piece| || EndsAt(more, at - |piece|)
  {
    var pieces := [piece] + more;
    forall i | 0 < i <= |pieces| ensures |Concat(pieces[..i])| == |piece| + |Concat(more[..i - 1])| {
      assert pieces[..i] == [piece] + more[..i - 1];
      assert pieces[..i][1..] == more[..i - 1];
    }
    assert more[..0] == [];
    if EndsAt(more, at - |piece|) {
      var i :| 0 < i <= |more| && |Concat(more[..i])| == at - |piece|;
      assert |Concat(pieces[..i + 1])| == at;
    }
    assert |Concat(pieces[..1])| == |piece|;
  }

  lemma EndsAhead(pieces: seq<string>, at: int)
    requires NoneEmpty(pieces) && at <= 0
    ensures !EndsAt(pieces, at)
  {
  }

  /** Taking the first piece, or a part of it, away. */
  lemma {:induction false} Later(reqs: seq<Request>, past: int, piece: string, k: nat, more: seq<string>)
    requires k < |piece|
    ensures AtEnds(reqs, past, [piece] + more) == AtEnds(reqs, past + k, [piece[k..]] + more)
    decreases |reqs|
  {
    hide EndsAt, Request.Bytes, Request.Meant;
    if reqs != [] {
      var end := |reqs[0].Bytes()| - past;
      EndsAtCons(piece, more, end);
      EndsAtCons(piece[k..], more, end - k);
      Later(reqs[1..], -end, piece, k, more);
    }
  }

  lemma {:induction false} NextPiece(reqs: seq<Request>, past: int, piece: string, more: seq<string>)
    requires reqs != [] ==> |reqs[0].Bytes()| - past > |piece|
    ensures AtEnds(reqs, past, [piece] + more) == AtEnds(reqs, past + |piece|, more)
    decreases |reqs|
  {
    hide EndsAt, Request.Bytes, Request.Meant;
    if reqs != [] {
      var end := |reqs[0].Bytes()| - past;
      EndsAtCons(piece, more, end);
      if |reqs| > 1 { BytesLength(reqs[1]); }
      NextPiece(reqs[1..], -end, piece, more);
    }
  }

  lemma BytesLength(r: Request)
    ensures |r.Bytes()| > 0
  {
    hide BulkTexts;
    if r.Array? { HeaderStar(|r.args|); }
  }

  // --- one read --------------------------------------------------------------------------------------------------

  /** Reading one piece takes the parser from `p` to `q`. */
  ghost predicate Goes(p: Parser, piece: string, q: Parser, res: int) {
    p.Valid() && (p.want > 0 ==> p.multi) && Fed(p, piece).ProcessInput() == (q, res)
  }

  /** Reading some pieces takes it to `last`, with these requests handed on. */
  ghost predicate ReadsAs(p: Parser, pieces: seq<string>, last: Parser, handed: seq<seq<string>>) {
    p.Valid() && (p.want > 0 ==> p.multi) && Reads(p, pieces) == (last, handed)
  }

  /** One turn of the loop takes `t` to `u`, and the loop goes on. */
  ghost predicate Turns(t: Parser, u: Parser) {
    t.buf != [] && t.Valid() && (t.want > 0 ==> t.multi) && t.Turn() == (u, 1)
  }

  lemma ReadsCons(p: Parser, piece: string, q: Parser, res: int, more: seq<string>, last: Parser,
      handed: seq<seq<string>>)
    requires Goes(p, piece, q, res) && ReadsAs(q, more, last, handed)
    ensures ReadsAs(p, [piece] + more, last, if res == 0 then [q.argv] + handed else handed)
  {
    hide Parser.ProcessInput;
    assert ([piece] + more)[1..] == more;
  }

  lemma ReadsCases(p: Parser, piece: string, more: seq<string>, last: Parser, handed: seq<seq<string>>)
      returns (q: Parser, res: int, later: seq<seq<string>>)
    requires ReadsAs(p, [piece] + more, last, handed)
    ensures Goes(p, piece, q, res) && ReadsAs(q, more, last, later)
    ensures handed == if res == 0 then [q.argv] + later else later
  {
    hide Parser.ProcessInput;
    assert ([piece] + more)[1..] == more;
    q, res := Fed(p, piece).ProcessInput().0, Fed(p, piece).ProcessInput().1;
    later := Reads(q, more).1;
  }

  lemma NoReads(p: Parser)
    requires Idle(p)
    ensures ReadsAs(p, [], p, [])
  {
  }

  /** A turn that leaves nothing ends the read; ... */
  lemma TurnEnds(p: Parser, piece: string, u: Parser)
    requires p.Valid() && (p.want > 0 ==> p.multi) && Turns(Fed(p, piece), u) && u.buf == []
    ensures Goes(p, piece, u, 0)
  {
    hide Parser.Turn;
    assert u.ProcessInput() == (u, 0);
  }

  /** ... one that leaves something goes on as if that were read by itself. */
  lemma TurnGoesOn(p: Parser, piece: string, u: Parser, surplus: string, q: Parser, res: int)
    requires p.Valid() && (p.want > 0 ==> p.multi) && Turns(Fed(p, piece), Fed(u, surplus)) && Goes(u, surplus, q, res)
    ensures Goes(p, piece, q, res)
  {
    hide Parser.Turn;
    var t := Fed(p, piece);
    assert t.ProcessInput() == Fed(u, surplus).ProcessInput();
  }

  // --- one request and what is behind it -------------------------------------------------------------------------

  /** The parser after a request, and nothing left to read. */
  function Done(p: Parser, args: seq<string>): (u: Parser)
    ensures Idle(u)
  {
    Parser([], args, |args|, 0, false, p.closing, p.thrown)
  }

  /** Where the parser stands after the first `n` characters of a request. */
  ghost predicate Within(p: Parser, r: Request, n: nat) {
    && p.Valid() && (p.want > 0 ==> p.multi) && n < |r.Bytes()|
    && match r
       case Array(args) => Partway(p, args, n)
       case Words(line) => p.want == 0 && !p.multi && p.buf == r.Bytes()[..n]
  }

  /** The rest of a request, with more behind it: the request is read, and the rest is what is left. */
  lemma FinishFirst(p: Parser, r: Request, n: nat, surplus: string)
    requires r.Fits() && Within(p, r, n)
    ensures Turns(Fed(p, r.Bytes()[n..] + surplus), Fed(Done(p, r.Meant()), surplus))
  {
    hide Wire, Header, Partway, InHeader, InArguments, Turns, Done, Fed, Sendable;
    match r
    case Array(args) =>
      PartwayCases(p, args, n);
      if InHeader(p, args, n) {
        FinishHeader(p, args, n, surplus);
      } else {
        var i :| 0 <= i < |args| && InArguments(p, args, n, i);
        FinishArguments(p, args, n, i, surplus);
      }
    case Words(line) =>
      FinishWords(p, line, n, surplus);
  }

  lemma FinishHeader(p: Parser, args: seq<string>, n: nat, surplus: string)
    requires Sendable(args) && p.Valid() && n < |Wire(args)| && InHeader(p, args, n)
    ensures Turns(Fed(p, Wire(args)[n..] + surplus), Fed(Done(p, args), surplus))
  {
    hide BulkTexts, Wire, Header, Parser.Turn;
    var t := Fed(p, Wire(args)[n..] + surplus);
    PartAndRest(Wire(args), n, surplus);
    WholeRequest(t, args, surplus);
    assert Fed(Done(p, args), surplus) == Parser(surplus, args, |args|, 0, false, p.closing, p.thrown);
  }

  lemma FinishArguments(p: Parser, args: seq<string>, n: nat, i: nat, surplus: string)
    requires Sendable(args) && p.Valid() && n < |Wire(args)| && i < |args| && InArguments(p, args, n, i)
    ensures Turns(Fed(p, Wire(args)[n..] + surplus), Fed(Done(p, args), surplus))
  {
    hide BulkTexts, Wire, Header, Parser.MultiBulk;
    var t := Fed(p, Wire(args)[n..] + surplus);
    assert t.buf == BulkTexts(args[i..]) + surplus;
    WholeArguments(t, args[..i], args[i..], surplus);
    assert args[..i] + args[i..] == args;
    assert Fed(Done(p, args), surplus) == Parser(surplus, args, |args|, 0, false, p.closing, p.thrown);
  }

  // --- words on a line -------------------------------------------------------------------------------------------

  /** A whole line is found at its end, ... */
  lemma LineFound(line: string, rest: string)
    requires CrlfFree(line)
    ensures FindCrlf(line + CRLF + rest, 0) == |line|
  {
    hide FindCrlf;
    var s := line + CRLF + rest;
    forall i | 0 <= i < |line| ensures !(s[i] == '\r' && s[i + 1] == '\n') {
      assert i + 1 < |line| ==> s[i + 1] == line[i + 1];
    }
    CrlfIs(s, 0, |line|);
  }

  /** ... a part of one is not. */
  lemma LinePart(line: string, n: nat)
    requires CrlfFree(line) && n < |line| + 2
    ensures FindCrlf((line + CRLF)[..n], 0) == -1
  {
    hide FindCrlf;
    CrlfNone((line + CRLF)[..n], 0);
  }

  /** A line is read as its words, unless it has none: then it is left where it is. */
  lemma LineReads(p: Parser, line: string, rest: string)
    requires CrlfFree(line) && p.want == 0 && p.buf == line + CRLF + rest
    ensures var words := Split(line, " ", 0);
            p.InlineBuffer() == if words == [] then (p, -1) else (p.(argv := words, cap := |words|, buf := rest), 1)
  {
    hide FindCrlf, Split;
    LineFound(line, rest);
    assert p.buf[..|line|] == line && p.buf[|line| + 2..] == rest;
  }

  lemma TurnIsInline(t: Parser)
    requires t.Valid() && t.buf != [] && t.want == 0 && !t.multi && t.buf[0] != '*'
    ensures t.Turn() == t.InlineBuffer()
  {
    hide Parser.InlineBuffer, Parser.MultiBulkBuffer;
  }

  lemma FinishWords(p: Parser, line: string, n: nat, surplus: string)
    requires Words(line).Fits() && Within(p, Words(line), n)
    ensures Turns(Fed(p, (line + CRLF)[n..] + surplus), Fed(Done(p, Split(line, " ", 0)), surplus))
  {
    hide Split, Parser.InlineBuffer, Parser.Turn, FindCrlf, CrlfFree;
    var t, words := Fed(p, (line + CRLF)[n..] + surplus), Split(line, " ", 0);
    PartAndRest(line + CRLF, n, surplus);
    LineReads(t, line, surplus);
    TurnIsInline(t);
    assert Fed(Done(p, words), surplus) == t.(argv := words, cap := |words|, buf := surplus);
  }

  lemma PartAndRest(w: string, n: nat, surplus: string)
    requires n <= |w|
    ensures w[..n] + (w[n..] + surplus) == w + surplus
  {
  }

  lemma MoreWords(p: Parser, line: string, n: nat, m: nat)
    requires Words(line).Fits() && Within(p, Words(line), n) && n < m < |line| + 2
    ensures var t := Fed(p, (line + CRLF)[n..m]); Within(t, Words(line), m) && Goes(p, (line + CRLF)[n..m], t, -1)
  {
    hide Split, FindCrlf;
    var t := Fed(p, (line + CRLF)[n..m]);
    assert t.buf == (line + CRLF)[..m];
    LinePart(line, m);
    assert t.InlineBuffer() == (t, -1);
  }

  // --- the theorem -----------------------------------------------------------------------------------------------

  /** Where the parser stands: `n` characters into the first request to come. */
  ghost predicate Standing(p: Parser, reqs: seq<Request>, n: nat) {
    if reqs == [] then n == 0 && Idle(p) else Within(p, reqs[0], n)
  }

  lemma IdleStands(p: Parser, reqs: seq<Request>)
    requires Idle(p)
    ensures Standing(p, reqs, 0)
  {
    hide BulkTexts;
    if reqs != [] {
      BytesLength(reqs[0]);
      if reqs[0].Array? {
        HeaderStar(|reqs[0].args|);
        assert InHeader(p, reqs[0].args, 0);
      }
    }
  }

  /** A read that stops before the end of the first request leaves the parser further on. */
  lemma ShortRead(p: Parser, r: Request, n: nat, m: nat) returns (q: Parser)
    requires r.Fits() && Within(p, r, n) && n < m < |r.Bytes()|
    ensures Within(q, r, m) && Goes(p, r.Bytes()[n..m], q, -1) && Unharmed(p, q)
  {
    hide Wire, Partway, Parser.ProcessInput, Goes, Sendable;
    match r
    case Array(args) => q := ShortArray(p, args, n, m);
    case Words(line) =>
      MoreWords(p, line, n, m);
      q := Fed(p, (line + CRLF)[n..m]);
  }

  lemma ShortArray(p: Parser, args: seq<string>, n: nat, m: nat) returns (q: Parser)
    requires Sendable(args) && Within(p, Array(args), n) && n < m < |Wire(args)|
    ensures Within(q, Array(args), m) && Goes(p, Wire(args)[n..m], q, -1) && Unharmed(p, q)
  {
    hide Wire, Partway, Parser.ProcessInput;
    FeedMore(p, args, n, m);
    q := Fed(p, Wire(args)[n..m]).ProcessInput().0;
  }

  /** A read that goes on behind its end reads on as if it began there. */
  lemma LongRead(p: Parser, r: Request, n: nat, surplus: string, more: seq<string>, last: Parser,
      handed: seq<seq<string>>)
    requires r.Fits() && Within(p, r, n) && surplus != []
    requires ReadsAs(Done(p, r.Meant()), [surplus] + more, last, handed)
    ensures ReadsAs(p, [r.Bytes()[n..] + surplus] + more, last, handed)
  {
    hide Request.Bytes, Request.Meant, Request.Fits, Partway, Turns, Goes, ReadsAs;
    FinishFirst(p, r, n, surplus);
    var u := Done(p, r.Meant());
    var q, res, later := ReadsCases(u, surplus, more, last, handed);
    TurnGoesOn(p, r.Bytes()[n..] + surplus, u, surplus, q, res);
    ReadsCons(p, r.Bytes()[n..] + surplus, q, res, more, last, later);
  }

  /** A read that ends there hands the request on. */
  lemma ExactRead(p: Parser, r: Request, n: nat, more: seq<string>, last: Parser, handed: seq<seq<string>>)
    requires r.Fits() && Within(p, r, n) && ReadsAs(Done(p, r.Meant()), more, last, handed)
    ensures ReadsAs(p, [r.Bytes()[n..]] + more, last, [r.Meant()] + handed)
  {
    hide Request.Bytes, Request.Meant, Request.Fits, Partway, Turns, Goes, ReadsAs;
    FinishFirst(p, r, n, []);
    var u := Done(p, r.Meant());
    assert r.Bytes()[n..] + [] == r.Bytes()[n..];
    assert Fed(u, []) == u;
    TurnEnds(p, r.Bytes()[n..], u);
    ReadsCons(p, r.Bytes()[n..], u, 0, more, last, handed);
  }

  /** Which requests count when the first one ends inside the first piece, ... */
  lemma EndPassed(reqs: seq<Request>, n: nat, rest: string, surplus: string, more: seq<string>)
    requires reqs != [] && n < |reqs[0].Bytes()| && |rest| == |reqs[0].Bytes()| - n && surplus != [] && NoneEmpty(more)
    ensures AtEnds(reqs, n, [rest + surplus] + more) == AtEnds(reqs[1..], 0, [surplus] + more)
  {
    hide Wire, EndsAt;
    var piece := rest + surplus;
    var end: int := |rest|;
    EndsAtCons(piece, more, end);
    EndsAhead(more, end - |piece|);
    Later(reqs[1..], -end, piece, |rest|, more);
    assert piece[|rest|..] == surplus;
  }

  /** ... and when it ends with it. */
  lemma EndMet(reqs: seq<Request>, n: nat, rest: string, more: seq<string>)
    requires reqs != [] && n < |reqs[0].Bytes()| && |rest| == |reqs[0].Bytes()| - n
    ensures AtEnds(reqs, n, [rest] + more) == [reqs[0].Meant()] + AtEnds(reqs[1..], 0, more)
  {
    hide Wire, EndsAt;
    var end: int := |rest|;
    EndsAtCons(rest, more, end);
    if |reqs| > 1 { BytesLength(reqs[1]); }
    NextPiece(reqs[1..], -end, rest, more);
  }

  /** What is to be shown of a run of reads. */
  ghost predicate Heard(p: Parser, reqs: seq<Request>, n: nat, pieces: seq<string>) {
    exists last: Parser :: Idle(last) && ReadsAs(p, pieces, last, AtEnds(reqs, n, pieces))
        && last.argv == LastOf(p, reqs) && Unharmed(p, last)
  }

  function LastOf(p: Parser, reqs: seq<Request>): seq<string> {
    if reqs == [] then p.argv else reqs[|reqs| - 1].Meant()
  }

  lemma {:induction false} HeardAll(p: Parser, reqs: seq<Request>, n: nat, pieces: seq<string>)
    requires AllFit(reqs) && Standing(p, reqs, n) && NoneEmpty(pieces) && n <= |Text(reqs)|
    requires Concat(pieces) == Text(reqs)[n..]
    ensures Heard(p, reqs, n, pieces)
    decreases |reqs|, |pieces|
  {
    hide Request.Bytes, Request.Meant, Request.Fits, Partway, EndsAt, ReadsAs, Goes;
    if reqs == [] {
      NothingMore(pieces);
      NoReads(p);
      assert AtEnds(reqs, n, pieces) == [];
    } else {
      hide AtEnds, Heard;
      var piece, more, w, m := pieces[0], pieces[1..], reqs[0].Bytes(), n + |pieces[0]|;
      assert Text(reqs) == w + Text(reqs[1..]);
      assert pieces == [piece] + more && piece == Text(reqs)[n..][..|piece|] && Concat(more) == Text(reqs)[m..];
      if m < |w| {
        assert piece == w[n..m];
        var q := ShortRead(p, reqs[0], n, m);
        HeardAll(q, reqs, m, more);
        HeardShort(p, reqs, n, piece, more, q);
      } else {
        var surplus := piece[|w| - n..];
        CutAt(piece, Concat(more), w, Text(reqs[1..]), n);
        HeardEnd(p, reqs, n, w[n..], surplus, more);
      }
    }
  }

  lemma CutAt(piece: string, rest: string, w: string, t: string, n: nat)
    requires n < |w| <= n + |piece| && piece + rest == (w + t)[n..]
    ensures piece == w[n..] + piece[|w| - n..] && piece[|w| - n..] + rest == t
  {
    assert (w + t)[n..] == w[n..] + t;
    assert (piece + rest)[|w| - n..] == t;
  }

  lemma HeardShort(p: Parser, reqs: seq<Request>, n: nat, piece: string, more: seq<string>, q: Parser)
    requires reqs != [] && n + |piece| < |reqs[0].Bytes()|
    requires Goes(p, piece, q, -1) && Unharmed(p, q) && Heard(q, reqs, n + |piece|, more)
    ensures Heard(p, reqs, n, [piece] + more)
  {
    hide Request.Bytes, Request.Meant, ReadsAs, Goes, AtEnds, EndsAt;
    var m := n + |piece|;
    NextPiece(reqs, n, piece, more);
    var last: Parser :| Idle(last) && ReadsAs(q, more, last, AtEnds(reqs, m, more)) && last.argv == LastOf(q, reqs)
      && Unharmed(q, last);
    ReadsCons(p, piece, q, -1, more, last, AtEnds(reqs, m, more));
  }

  /** The first piece goes up to the end of the first request or further. */
  lemma {:induction false} HeardEnd(p: Parser, reqs: seq<Request>, n: nat, rest: string, surplus: string,
      more: seq<string>)
    requires reqs != [] && AllFit(reqs) && Standing(p, reqs, n) && NoneEmpty(more) && rest == reqs[0].Bytes()[n..]
    requires surplus + Concat(more) == Text(reqs[1..])
    ensures Heard(p, reqs, n, [rest + surplus] + more)
    decreases |reqs|, 0
  {
    hide Request.Bytes, Request.Meant, Request.Fits, Partway, EndsAt, ReadsAs, Goes, AtEnds, Text;
    var u, tail := Done(p, reqs[0].Meant()), reqs[1..];
    IdleStands(u, tail);
    assert Text(tail)[0..] == Text(tail);
    var after := if surplus == [] then more else [surplus] + more;
    assert Concat(after) == Text(tail) by { if surplus != [] { assert after[1..] == more; } }
    HeardAll(u, tail, 0, after);
    var last: Parser :| Idle(last) && ReadsAs(u, after, last, AtEnds(tail, 0, after)) && last.argv == LastOf(u, tail)
      && Unharmed(u, last);
    if surplus == [] {
      EndMet(reqs, n, rest, more);
      ExactRead(p, reqs[0], n, more, last, AtEnds(tail, 0, more));
      assert rest + surplus == rest;
    } else {
      EndPassed(reqs, n, rest, surplus, more);
      LongRead(p, reqs[0], n, surplus, more, last, AtEnds(tail, 0, after));
    }
    assert last.argv == LastOf(p, reqs);
  }

  lemma {:induction false} NothingMore(pieces: seq<string>)
    requires Concat(pieces) == [] && NoneEmpty(pieces)
    ensures pieces == []
  {
  }

  /** A request is handed on exactly when a piece ends where it ends: of all that are complete after a read, only
      the last, and that only if nothing of the next has come with it. */
  lemma HandedOnExactly(p: Parser, reqs: seq<Request>, pieces: seq<string>)
    requires AllFit(reqs) && Idle(p) && NoneEmpty(pieces) && Concat(pieces) == Text(reqs)
    ensures var (last, handed) := Reads(p, pieces);
            handed == AtEnds(reqs, 0, pieces) && Idle(last) && last.argv == LastOf(p, reqs) && Unharmed(p, last)
  {
    hide AtEnds, Text, Reads;
    IdleStands(p, reqs);
    assert Text(reqs)[0..] == Text(reqs);
    HeardAll(p, reqs, 0, pieces);
  }

  /** Some piece ends where each of the requests does. */
  ghost predicate AllEnd(reqs: seq<Request>, past: int, pieces: seq<string>) {
    forall j :: 0 < j <= |reqs| ==> EndsAt(pieces, |Text(reqs[..j])| - past)
  }

  lemma {:induction false} AllAtEnds(reqs: seq<Request>, past: int, pieces: seq<string>)
    ensures |AtEnds(reqs, past, pieces)| <= |reqs|
    ensures AtEnds(reqs, past, pieces) == Meanings(reqs) <==> AllEnd(reqs, past, pieces)
    decreases |reqs|
  {
    hide EndsAt, Request.Bytes, Request.Meant;
    if reqs != [] {
      var end, tail := |reqs[0].Bytes()| - past, reqs[1..];
      AllAtEnds(tail, -end, pieces);
      AllCons(reqs, past, pieces);
      var rest := AtEnds(tail, -end, pieces);
      if EndsAt(pieces, end) {
        assert ([reqs[0].Meant()] + rest)[1..] == rest && ([reqs[0].Meant()] + Meanings(tail))[1..] == Meanings(tail);
      } else {
        assert |AtEnds(reqs, past, pieces)| == |rest| < |reqs|;
      }
    }
  }

  lemma AllCons(reqs: seq<Request>, past: int, pieces: seq<string>)
    requires reqs != []
    ensures var end := |reqs[0].Bytes()| - past;
            AllEnd(reqs, past, pieces) <==> EndsAt(pieces, end) && AllEnd(reqs[1..], -end, pieces)
  {
    hide EndsAt, Request.Bytes, Request.Meant;
    var end, tail := |reqs[0].Bytes()| - past, reqs[1..];
    forall j | 0 < j <= |reqs| ensures |Text(reqs[..j])| - past == |Text(tail[..j - 1])| + end {
      assert reqs[..j][1..] == tail[..j - 1];
    }
    assert |Text(reqs[..1])| - past == end by { assert tail[..0] == []; }
    if AllEnd(reqs, past, pieces) {
      forall j | 0 < j <= |tail| ensures EndsAt(pieces, |Text(tail[..j])| - (-end)) {
        assert EndsAt(pieces, |Text(reqs[..j + 1])| - past);
      }
    }
  }

  /** All requests are handed on exactly when each ends where some piece does. */
  lemma AllArriveExactly(p: Parser, reqs: seq<Request>, pieces: seq<string>)
    requires AllFit(reqs) && Idle(p) && NoneEmpty(pieces) && Concat(pieces) == Text(reqs)
    ensures Reads(p, pieces).1 == Meanings(reqs) <==> AllEnd(reqs, 0, pieces)
  {
    hide Reads, AllEnd, AtEnds, Meanings, Text;
    HandedOnExactly(p, reqs, pieces);
    AllAtEnds(reqs, 0, pieces);
  }

  /** However one request is cut into pieces on its way, and whatever the parser's last request was: the
      arguments meant are the arguments read, and they are handed on once. */
  lemma RequestArrives(p: Parser, r: Request, pieces: seq<string>)
    requires r.Fits() && Idle(p) && NoneEmpty(pieces) && Concat(pieces) == r.Bytes()
    ensures var (last, handed) := Reads(p, pieces);
            handed == [r.Meant()] && Idle(last) && last.argv == r.Meant() && Unharmed(p, last)
  {
    hide Reads, Request.Bytes, Request.Meant, Request.Fits;
    assert [r][1..] == [] && Text([r]) == r.Bytes();
    HandedOnExactly(p, [r], pieces);
    BytesLength(r);
    assert pieces[..|pieces|] == pieces;
    assert EndsAt(pieces, |r.Bytes()|);
  }

  lemma OfTwo(first: Request, second: Request, pieces: seq<string>)
    requires EndsAt(pieces, |first.Bytes()| + |second.Bytes()|) && !EndsAt(pieces, |first.Bytes()|)
    ensures AtEnds([first, second], 0, pieces) == [second.Meant()]
  {
    hide EndsAt, Request.Bytes, Request.Meant;
    var reqs, tail := [first, second], [second];
    assert reqs[1..] == tail && tail[1..] == [];
    assert AtEnds(tail, -|first.Bytes()|, pieces) == [second.Meant()];
  }

  /** Of two requests of which the first does not end where a read ends, it is lost: both in one read, or the
      second begun in the read that the first came in. */
  lemma FirstOfTwoLost(p: Parser, first: Request, second: Request, k: nat)
    requires first.Fits() && second.Fits() && Idle(p) && 0 < k <= |second.Bytes()|
    ensures var head := first.Bytes() + second.Bytes()[..k];
            Reads(p, if k < |second.Bytes()| then [head, second.Bytes()[k..]] else [head]).1 == [second.Meant()]
  {
    hide Reads, Request.Bytes, Request.Meant, Request.Fits, EndsAt;
    var head, rest := first.Bytes() + second.Bytes()[..k], second.Bytes()[k..];
    var reqs: seq<Request>, more := [first, second], if rest != [] then [rest] else [];
    assert Concat(more) == rest && head + rest == first.Bytes() + second.Bytes();
    assert reqs[1..] == [second] && Text([second]) == second.Bytes() + Text([second][1..]);
    assert ([head] + more)[1..] == more;
    HandedOnExactly(p, reqs, [head] + more);
    BytesLength(first);
    TwoEnds(first, second, head, rest, more);
    OfTwo(first, second, [head] + more);
    assert [head] + more == if k < |second.Bytes()| then [head, rest] else [head];
  }

  lemma TwoEnds(first: Request, second: Request, head: string, rest: string, more: seq<string>)
    requires more == (if rest != [] then [rest] else []) && |head| + |rest| == |first.Bytes()| + |second.Bytes()|
    requires |head| > |first.Bytes()|
    ensures EndsAt([head] + more, |first.Bytes()| + |second.Bytes()|) && !EndsAt([head] + more, |first.Bytes()|)
  {
    hide EndsAt, Request.Bytes;
    EndsAtCons(head, more, |first.Bytes()|);
    EndsAhead(more, |first.Bytes()| - |head|);
    EndsAtCons(head, more, |first.Bytes()| + |second.Bytes()|);
    if rest != [] {
      EndsAtCons(rest, [], |rest|);
      assert more == [rest] + [];
    }
  }

  // --- a line without a word -------------------------------------------------------------------------------------

  /** A parser whose buffer starts with such a line. */
  ghost predicate Stuck(p: Parser, line: string) {
    && CrlfFree(line) && Split(line, " ", 0) == [] && (line != "" ==> line[0] != '*')
    && p.want == 0 && !p.multi && |p.buf| >= |line| + 2 && p.buf[..|line| + 2] == line + CRLF
  }

  lemma StuckReads(p: Parser, line: string, piece: string)
    requires Stuck(p, line)
    ensures Stuck(Fed(p, piece), line) && Goes(p, piece, Fed(p, piece), -1)
  {
    hide FindCrlf, Split, Parser.InlineBuffer;
    var t := Fed(p, piece);
    assert t.buf[..|line| + 2] == p.buf[..|line| + 2];
    var rest := t.buf[|line| + 2..];
    assert t.buf == line + CRLF + rest;
    assert t.buf[0] == if line == "" then '\r' else line[0];
    LineReads(t, line, rest);
  }

  /** It is never taken out of the buffer, and nothing is handed on any more. */
  lemma {:induction false} StuckForGood(p: Parser, line: string, pieces: seq<string>)
    requires Stuck(p, line)
    ensures ReadsAs(p, pieces, p.(buf := p.buf + Concat(pieces)), [])
    decreases |pieces|
  {
    hide Stuck, Goes, ReadsAs;
    if pieces == [] {
      StuckEnds(p, line);
    } else {
      var piece, more := pieces[0], pieces[1..];
      StuckReads(p, line, piece);
      StuckForGood(Fed(p, piece), line, more);
      assert (p.buf + piece) + Concat(more) == p.buf + Concat(pieces);
      ReadsCons(p, piece, Fed(p, piece), -1, more, p.(buf := p.buf + Concat(pieces)), []);
      assert pieces == [piece] + more;
    }
  }

  lemma StuckEnds(p: Parser, line: string)
    requires Stuck(p, line)
    ensures ReadsAs(p, [], p.(buf := p.buf + Concat([])), [])
  {
    hide FindCrlf, Split;
    assert p.buf + [] == p.buf;
  }

  /** A line that an idle client is sent silences it for good exactly when there is no word in it. */
  lemma BlankLineExactly(p: Parser, line: string)
    requires Idle(p) && CrlfFree(line) && (line != "" ==> line[0] != '*')
    ensures (forall pieces :: Reads(p, [line + CRLF] + pieces).1 == []) <==> Split(line, " ", 0) == []
  {
    hide FindCrlf, Split, Reads, Parser.ProcessInput;
    if Split(line, " ", 0) == [] {
      forall pieces ensures Reads(p, [line + CRLF] + pieces).1 == [] { BlankSilences(p, line, pieces); }
    } else {
      WordsHandedOn(p, line);
      assert Reads(p, [line + CRLF] + []).1 != [] by { assert [line + CRLF] + [] == [line + CRLF]; }
    }
  }

  lemma BlankSilences(p: Parser, line: string, pieces: seq<string>)
    requires Idle(p) && CrlfFree(line) && (line != "" ==> line[0] != '*') && Split(line, " ", 0) == []
    ensures Reads(p, [line + CRLF] + pieces).1 == []
  {
    hide FindCrlf, Split, Parser.ProcessInput, Parser.Turn, Reads;
    var t := Fed(p, line + CRLF);
    assert t.buf == line + CRLF;
    assert Stuck(t, line);
    StuckReads(t, line, "");
    assert Fed(t, "") == t;
    StuckForGood(t, line, pieces);
    ReadsCons(p, line + CRLF, t, -1, pieces, t.(buf := t.buf + Concat(pieces)), []);
  }

  lemma WordsHandedOn(p: Parser, line: string)
    requires Idle(p) && CrlfFree(line) && (line != "" ==> line[0] != '*') && Split(line, " ", 0) != []
    ensures Reads(p, [line + CRLF]).1 == [Split(line, " ", 0)]
  {
    hide FindCrlf, Split, Parser.InlineBuffer;
    var t, u := Fed(p, line + CRLF), Done(p, Split(line, " ", 0));
    assert t.buf == line + CRLF + [];
    LineReads(t, line, []);
    assert t.buf[0] != '*';
    assert t.Turn() == (u, 1);
    TurnEnds(p, line + CRLF, u);
    assert [line + CRLF][1..] == [];
  }
}
