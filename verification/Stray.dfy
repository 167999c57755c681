/** When reading throws: the one place where a protocol error drops more than there is. */
module Stray {
  import opened Resp
  import opened RespRuns

  /** The next thing to be read: a missing argument, the line with a count, or a line of words. */
  function Attempt(p: Parser): (r: (Parser, int))
    requires p.Valid() && p.buf != [] && (p.want > 0 ==> p.multi)
  {
    if p.want > 0 then p.Bulk()
    else if p.buf[0] == '*' || p.multi then p.(multi := true).MultiBulkLen()
    else p.InlineBuffer()
  }

  /** A request with no argument missing is over. */
  function Over(p: Parser): Parser { if |p.argv| >= p.want then p.(want := 0, multi := false) else p }

  /** Where reading stops: all that is complete has been read. */
  function Stop(p: Parser): (q: Parser)
    requires p.Valid() && (p.want > 0 ==> p.multi)
    ensures q.Valid() && (q.want > 0 ==> q.multi)
    ensures q.buf != [] ==> Attempt(q).1 != 1
    decreases |p.buf|
  {
    if p.buf == [] then p
    else
      var (q, res) := Attempt(p);
      if res != 1 then p else Stop(Over(q))
  }

  /** A lone wrong character where an argument should start. */
  predicate Lone(p: Parser) { p.want > 0 && |p.buf| == 1 && p.buf[0] != '$' }

  lemma BulkThrows(p: Parser)
    requires !p.thrown
    ensures p.Bulk().0.thrown <==> |p.buf| == 1 && p.buf[0] != '$'
    ensures p.Bulk().0.thrown ==> p.Bulk().1 == -1
  {
    hide FindCrlf, ReadNumber;
  }

  lemma LinesDoNotThrow(p: Parser)
    requires p.Valid() && p.want == 0
    ensures p.MultiBulkLen().0.thrown == p.thrown && p.InlineBuffer().0.thrown == p.thrown
    ensures p.InlineBuffer().0.want == 0 && p.InlineBuffer().0.multi == p.multi
  {
    hide FindCrlf, ReadNumber;
  }

  /** What is left of a turn once the count, or an argument, has been read. */
  function Remaining(q: Parser): (Parser, int) {
    if q.MultiBulk().1 == -1 then q.MultiBulk() else (q.MultiBulk().0.(want := 0, multi := false), 1)
  }

  lemma ArgumentRead(p: Parser)
    requires p.Valid() && p.buf != [] && p.want > 0 && p.multi && p.Bulk().1 == 1
    ensures p.Turn() == Remaining(p.Bulk().0)
  {
    hide Parser.Bulk;
    assert p.(multi := true) == p;
    assert p.MultiBulk() == p.Bulk().0.MultiBulk();
  }

  lemma CountRead(p: Parser)
    requires p.Valid() && p.buf != [] && p.want == 0
    requires (p.buf[0] == '*' || p.multi) && p.(multi := true).MultiBulkLen().1 == 1
    ensures p.Turn() == Remaining(p.(multi := true).MultiBulkLen().0)
  {
    hide Parser.Bulk, Parser.MultiBulkLen, Parser.MultiBulk;
  }

  lemma RemainingIsTurn(p: Parser, q: Parser)
    requires p.Valid() && p.buf != [] && (p.want > 0 ==> p.multi) && p.Turn() == Remaining(q)
    requires q.multi && (q.Valid() || |q.argv| >= q.want)
    ensures Over(q).Valid() && (Over(q).want > 0 ==> Over(q).multi) && p.ProcessInput().0 == Over(q).ProcessInput().0
  {
    hide Parser.Bulk, Parser.Turn;
    if |q.argv| >= q.want {
      assert q.MultiBulk() == (q, 1);
    } else if q.buf == [] {
      assert q.Bulk() == (q, -1) by { EmptyWaits(q); }
    } else {
      assert q.(multi := true) == q;
      TurnIsRemaining(q);
    }
  }

  lemma EmptyWaits(q: Parser)
    requires q.buf == []
    ensures q.Bulk() == (q, -1)
  {
  }

  lemma TurnIsRemaining(q: Parser)
    requires q.Valid() && q.multi && q.want > 0 && q.buf != []
    ensures q.Turn() == Remaining(q)
  {
    hide Parser.MultiBulk;
    assert q.(multi := true) == q;
  }

  lemma AttemptGoesOn(p: Parser)
    requires p.Valid() && p.buf != [] && (p.want > 0 ==> p.multi) && Attempt(p).1 == 1
    ensures var q := Over(Attempt(p).0);
            && q.Valid() && (q.want > 0 ==> q.multi) && |q.buf| < |p.buf|
            && p.ProcessInput().0 == q.ProcessInput().0 && (!p.thrown ==> !q.thrown)
  {
    hide Parser.Bulk, Parser.Turn, Parser.MultiBulk, Parser.MultiBulkLen, Parser.ProcessInput, Parser.InlineBuffer;
    var t := Attempt(p).0;
    if p.want > 0 {
      ArgumentRead(p);
      RemainingIsTurn(p, t);
      if !p.thrown { BulkThrows(p); }
    } else if p.buf[0] == '*' || p.multi {
      CountRead(p);
      RemainingIsTurn(p, t);
      LinesDoNotThrow(p.(multi := true));
    } else {
      LinesDoNotThrow(p);
      InlineGoesOn(p);
    }
  }

  lemma InlineGoesOn(p: Parser)
    requires p.Valid() && p.buf != [] && p.want == 0 && p.buf[0] != '*' && !p.multi && p.InlineBuffer().1 == 1
    requires p.InlineBuffer().0.want == 0 && !p.InlineBuffer().0.multi
    ensures p.ProcessInput().0 == Over(p.InlineBuffer().0).ProcessInput().0
  {
    hide Parser.InlineBuffer;
    var q := p.InlineBuffer().0;
    assert Over(q) == q;
    assert p.ProcessInput() == q.ProcessInput();
  }

  lemma {:induction false} StopSame(p: Parser)
    requires p.Valid() && (p.want > 0 ==> p.multi)
    ensures p.ProcessInput().0 == Stop(p).ProcessInput().0 && (!p.thrown ==> !Stop(p).thrown)
    decreases |p.buf|
  {
    hide Attempt, Parser.ProcessInput, Over;
    if p.buf != [] && Attempt(p).1 == 1 {
      AttemptGoesOn(p);
      StopSame(Over(Attempt(p).0));
    }
  }

  lemma LastAttempt(q: Parser)
    requires q.Valid() && (q.want > 0 ==> q.multi) && !q.thrown && (q.buf != [] ==> Attempt(q).1 != 1)
    ensures q.ProcessInput().0.thrown <==> Lone(q)
  {
    hide Parser.Bulk, Parser.MultiBulkLen, Parser.InlineBuffer, Parser.ProcessInput;
    if q.buf != [] {
      BulkThrows(q);
      if q.want == 0 {
        LinesDoNotThrow(q);
        LinesDoNotThrow(q.(multi := true));
      } else {
        assert q.(multi := true) == q;
      }
      LastTurn(q);
    } else {
      NothingToRead(q);
    }
  }

  lemma LastTurn(q: Parser)
    requires q.Valid() && (q.want > 0 ==> q.multi) && q.buf != [] && q.Turn().1 == -1
    ensures q.ProcessInput() == q.Turn()
  {
    hide Parser.Turn;
  }

  lemma NothingToRead(q: Parser)
    requires q.Valid() && (q.want > 0 ==> q.multi) && q.buf == []
    ensures q.ProcessInput().0 == q
  {
  }

  /** Reading throws exactly when, with all that is complete read, an argument is missing and one character is
      left that cannot start it. */
  lemma ThrowsExactly(p: Parser)
    requires p.Valid() && (p.want > 0 ==> p.multi) && !p.thrown
    ensures p.ProcessInput().0.thrown <==> Lone(Stop(p))
  {
    hide Attempt, Parser.ProcessInput, Over, Lone, Stop;
    StopSame(p);
    LastAttempt(Stop(p));
  }

  /** So a client can do it: a count on its own line, and then any single character but the right one. */
  lemma CountThenStray(p: Parser, n: nat, c: char)
    requires p.buf == [] && p.want == 0 && !p.multi && !p.thrown && 0 < n <= MULTIBULK_MAX
    ensures Reads(p, [Header(n), [c]]).0.thrown <==> c != '$'
  {
    hide FindCrlf, ReadNumber, Header;
    HeaderStar(n);
    var t := Fed(p, Header(n)).(multi := true);
    assert Header(n) + [] == Header(n);
    HeaderReads(t, n, []);
    var q := t.(buf := [], want := n, argv := [], cap := n);
    assert Fed(p, Header(n)).ProcessInput() == (q, -1);
    ThrowsExactly(Fed(q, [c]));
    assert [Header(n), [c]][1..] == [[c]] && [[c]][1..] == [];
    var last := Fed(q, [c]).ProcessInput().0;
    assert Reads(last, []) == (last, []);
  }

  lemma FreshThrows()
    ensures Reads(Parser("", [], 0, 0, false, false, false), ["*1\r\n", "x"]).0.thrown
  {
    assert Header(1) == "*1\r\n";
    CountThenStray(Parser("", [], 0, 0, false, false, false), 1, 'x');
  }
}
