/** Runs in which a descriptor is given away before its client is freed, and a newcomer pays for it. */
module DescriptorReuse {
  import opened Replies
  import opened Delivery
  import opened DeliveryRuns

  // --- a watch that is taken away ----------------------------------------------------------------------------

  const X: Out := Out("x", 0, [], 0)
  const Y: Out := Out("y", 0, [], 0)
  const OLD_CLIENT: Client := Client(5, NO_FLAGS.(closeAsap := true), X)
  const NEW_CLIENT: Client := Client(5, NO_FLAGS, Y)

  /** A client whose reply could not be written is marked, and its descriptor is closed and given to a new
      client. The new client's reply waits for a watch ... */
  const SHARED: Server := Server([OLD_CLIENT, NEW_CLIENT], map[5 := 1], [], [0], {5}, {})

  /** ... that is removed together with the old client. */
  lemma ReuseLosesOutput()
    ensures SHARED.Valid() && SHARED.NoLostOutput() && Enabled(SHARED, CloseMarked)
    ensures !SafeStep(SHARED, CloseMarked) && !Step(SHARED, CloseMarked).NoLostOutput()
  {
    hide Server.Unlink, Step;
    assert X.Valid() && Y.Valid();
    assert NeedsWatch(SHARED.clients[1]) && !SafeUnlink(SHARED, SHARED.toClose[0]);
    StepExactly(SHARED, CloseMarked);
  }

  const LISTED: Flags := NO_FLAGS.(pendingWrite := true)

  const FRESH: Client := Client(5, NO_FLAGS, EMPTY)
  const GONE: Answers := Answers([], false, true)
  const LATER: Answers := Answers([], true, true)

  /** A reply to a client with nothing pending, and the flush that follows. */
  lemma ReplyThenFlush(s: Server, id: nat, text: string, a: Answers)
    requires s.Valid() && s.Has(id) && s.clients[id] == FRESH && s.byFd == map[5 := id] && s.pending == []
    requires 0 < |text| < MESSAGE_BYTES && a.taken == []
    ensures var o := Out(text, 0, [], 0); var t := Step(s, Reply(id, text));
            && Enabled(s, Reply(id, text))
            && t == s.(clients := s.clients[id := Client(5, LISTED, o)], pending := [id])
            && Enabled(t, FlushAll([a]))
            && Step(t, FlushAll([a])) ==
               if a.again && a.watched then
                 s.(clients := s.clients[id := Client(5, NO_FLAGS, o)], writable := s.writable + {5})
               else
                 s.(clients := s.clients[id := Client(5, NO_FLAGS.(closeAsap := true), o)], toClose := s.toClose + [id])
  {
    hide Server.Flush, Server.Valid, Server.Wf, Server.AddReply, Out.Valid;
    ValidIsWf(s);
    var o := Out(text, 0, [], 0);
    FirstReply(s, id, text);
    assert [] + [id] == [id];
    var t := s.(clients := s.clients[id := Client(5, LISTED, o)], pending := [id]);
    assert Step(s, Reply(id, text)) == t;
    OneFlush(t, id, o, a);
  }

  /** A client that replies are listed for. */
  predicate Takes(s: Server, id: nat) {
    && id < |s.clients| && 5 in s.byFd && s.byFd[5] == id
    && var c := s.clients[id];
       c.fd == 5 && c.out == EMPTY && !c.flags.pendingWrite && !c.flags.master && !c.flags.closeAfterReply
  }

  lemma FirstReply(s: Server, id: nat, text: string)
    requires s.Wf() && Takes(s, id) && 0 < |text| < MESSAGE_BYTES
    ensures var o, c := Out(text, 0, [], 0), s.clients[id];
            && o.Valid()
            && s.AddReply(id, text) ==
               s.(clients := s.clients[id := Client(5, c.flags.(pendingWrite := true), o)], pending := s.pending + [id])
  {
    hide Server.Wf;
    var o, c := Out(text, 0, [], 0), s.clients[id];
    var flags := c.flags.(pendingWrite := true);
    var u := s.(clients := s.clients[id := c.(flags := flags)], pending := s.pending + [id]);
    assert s.Prepare(id) == (u, true);
    assert "" + text == text && EMPTY.Add(Cut(text), false) == o;
    assert u.clients[id := Client(5, flags, o)] == s.clients[id := Client(5, flags, o)];
  }

  lemma OneFlush(t: Server, id: nat, o: Out, a: Answers)
    requires t.Valid() && t.Has(id) && t.clients[id] == Client(5, LISTED, o)
    requires t.byFd == map[5 := id] && t.pending == [id]
    requires o.Valid() && !o.NothingPending() && a.taken == []
    ensures t.Flush([a]) ==
               if a.again && a.watched then
                 t.(clients := t.clients[id := Client(5, NO_FLAGS, o)], pending := [], writable := t.writable + {5})
               else
                 t.(clients := t.clients[id := Client(5, NO_FLAGS.(closeAsap := true), o)], pending := [],
                    toClose := t.toClose + [id])
  {
    hide Out.Valid;
    assert WriteAll(o, [], 0) == (o, [], -1);
    var u := t.FlushOne(id, a);
    assert t.FlushFrom(0, [a]) == u.FlushFrom(1, [a]);
  }

  /** The state before the marked client is freed can come about. */
  lemma ReuseHappens()
    ensures exists states, events :: RunOf(states, events) && states[|events|] == SHARED
  {
    hide Step, Enabled, Server.Valid;
    var s1 := Server([FRESH], map[5 := 0], [], [], {}, {});
    var s3 := Server([OLD_CLIENT], map[5 := 0], [], [0], {}, {});
    var s4 := Server([OLD_CLIENT, FRESH], map[5 := 1], [], [0], {}, {});
    Accepts();
    ReplyThenFlush(s1, 0, "x", GONE);
    var s2 := Step(s1, Reply(0, "x"));
    assert Step(s2, FlushAll([GONE])) == s3;
    AcceptsAgain();
    ReplyThenFlush(s4, 1, "y", LATER);
    var s5 := Step(s4, Reply(1, "y"));
    assert Step(s5, FlushAll([LATER])) == SHARED;
    var events := [Accept(5), Reply(0, "x"), FlushAll([GONE]), Accept(5), Reply(1, "y"), FlushAll([LATER])];
    var states := [START, s1, s2, s3, s4, s5, SHARED];
    assert RunOf(states, events);
  }

  lemma Accepts()
    ensures START.Valid() && Enabled(START, Accept(5))
    ensures Step(START, Accept(5)) == Server([FRESH], map[5 := 0], [], [], {}, {})
  {
  }

  lemma AcceptsAgain()
    ensures var s := Server([OLD_CLIENT], map[5 := 0], [], [0], {}, {});
            && s.Valid() && Enabled(s, Accept(5))
               && Step(s, Accept(5)) == Server([OLD_CLIENT, FRESH], map[5 := 1], [], [0], {}, {})
  {
    assert X.Valid();
  }

  // --- a newcomer marked for another's failure ---------------------------------------------------------------

  const LAST: Flags := NO_FLAGS.(closeAfterReply := true)
  const MARKED: Flags := NO_FLAGS.(closeAsap := true)

  /** A client that was closed after its last reply, has been sent another all the same, and is listed again; and
      the client that has its descriptor now. */
  const HELD: Server :=
    Server([Client(5, MARKED.(pendingWrite := true), X), Client(5, LISTED, Y)], map[5 := 1], [0, 1], [0], {}, {})

  /** Writing to the old client fails, and that marks the new one, whose reply has not been sent. */
  lemma NewcomerWronged()
    ensures HELD.Valid() && HELD.NoLostOutput() && Enabled(HELD, FlushAll([GONE, LATER]))
    ensures !SafeStep(HELD, FlushAll([GONE, LATER]))
    ensures !Step(HELD, FlushAll([GONE, LATER])).NoLostOutput() && Step(HELD, FlushAll([GONE, LATER])).CoveredBut({})
  {
    hide Step, Server.FlushOne, OwnFrom;
    HeldRight();
    FlushKeeps(HELD, {}, [GONE, LATER]);
    NotOwn();
    StepExactly(HELD, FlushAll([GONE, LATER]));
    StepIsFlush();
  }

  lemma StepIsFlush()
    ensures HELD.Valid() && Step(HELD, FlushAll([GONE, LATER])) == HELD.Flush([GONE, LATER])
  {
    HeldRight();
  }

  lemma HeldRight()
    ensures HELD.Valid() && HELD.NoLostOutput()
  {
    assert X.Valid() && Y.Valid();
  }

  lemma NotOwn()
    ensures HELD.Wf() && !OwnFrom(HELD, 0, [GONE, LATER])
  {
    hide Server.FlushOne;
    HeldRight();
    assert WriteAll(X, [], 0) == (X, [], -1);
    assert HELD.Ends(0, GONE) && HELD.MarksAnother(0);
  }

  /** That state can come about. */
  lemma WrongHappens()
    ensures exists states, events :: RunOf(states, events) && states[|events|] == HELD
  {
    hide Step, Enabled, Server.Valid;
    var s1 := Server([FRESH], map[5 := 0], [], [], {}, {});
    var s2 := Server([Client(5, LAST, EMPTY)], map[5 := 0], [], [], {}, {});
    var s3 := Server([Client(5, LAST.(pendingWrite := true), EMPTY)], map[5 := 0], [0], [], {}, {});
    var s4 := Server([Client(5, MARKED, EMPTY)], map[5 := 0], [], [0], {}, {});
    var s5 := Server([Client(5, MARKED.(pendingWrite := true), X)], map[5 := 0], [0], [0], {}, {});
    var s6 := Server([Client(5, MARKED.(pendingWrite := true), X), FRESH], map[5 := 1], [0], [0], {}, {});
    Accepts();
    LastReply();
    LastSent();
    OneMore();
    ThenAccepts();
    ThenReplies();
    var events := [Accept(5), CloseAfterReply(0), Reply(0, "bye"), FlushAll([LATER]), Reply(0, "x"), Accept(5),
                   Reply(1, "y")];
    var states := [START, s1, s2, s3, s4, s5, s6, HELD];
    assert RunOf(states, events);
  }

  ghost predicate Leads(s: Server, e: Event, t: Server) { s.Valid() && Enabled(s, e) && Step(s, e) == t }

  lemma LastReply()
    ensures Leads(Server([FRESH], map[5 := 0], [], [], {}, {}), CloseAfterReply(0),
                  Server([Client(5, LAST, EMPTY)], map[5 := 0], [], [], {}, {}))
    ensures Leads(Server([Client(5, LAST, EMPTY)], map[5 := 0], [], [], {}, {}), Reply(0, "bye"),
                  Server([Client(5, LAST.(pendingWrite := true), EMPTY)], map[5 := 0], [0], [], {}, {}))
  {
    assert EMPTY.Valid();
    assert [] + [0] == [0];
  }

  lemma LastSent()
    ensures Leads(Server([Client(5, LAST.(pendingWrite := true), EMPTY)], map[5 := 0], [0], [], {}, {}),
            FlushAll([LATER]),
                  Server([Client(5, MARKED, EMPTY)], map[5 := 0], [], [0], {}, {}))
  {
    hide Server.FlushOne, Server.Flush;
    assert EMPTY.Valid();
    LastFlush();
  }

  lemma LastFlush()
    ensures var s := Server([Client(5, LAST.(pendingWrite := true), EMPTY)], map[5 := 0], [0], [], {}, {});
            s.Wf() && s.Flush([LATER]) == Server([Client(5, MARKED, EMPTY)], map[5 := 0], [], [0], {}, {})
  {
    hide Server.Write;
    assert EMPTY.Valid();
    LastWrite();
    var s := Server([Client(5, LAST.(pendingWrite := true), EMPTY)], map[5 := 0], [0], [], {}, {});
    var t := Server([Client(5, MARKED, EMPTY)], map[5 := 0], [0], [0], {}, {});
    assert s.With(0, Client(5, LAST, EMPTY)) == Server([Client(5, LAST, EMPTY)], map[5 := 0], [0], [], {}, {});
    assert s.FlushOne(0, LATER) == t;
    assert s.Wf() && t.Wf() && t.FlushFrom(1, [LATER]) == t;
    assert s.FlushFrom(0, [LATER]) == t.FlushFrom(1, [LATER]);
  }

  lemma LastWrite()
    ensures EMPTY.Valid()
    ensures Server([Client(5, LAST, EMPTY)], map[5 := 0], [0], [], {}, {}).Write(0, false, LATER)
            == (Server([Client(5, MARKED, EMPTY)], map[5 := 0], [0], [0], {}, {}), -1)
  {
    var s := Server([Client(5, LAST, EMPTY)], map[5 := 0], [0], [], {}, {});
    var t := Server([Client(5, MARKED, EMPTY)], map[5 := 0], [0], [0], {}, {});
    assert s.With(0, s.clients[0]) == s && [] + [0] == [0];
    assert s.clients[0 := Client(5, MARKED, EMPTY)] == t.clients;
    assert s.FreeAsync(0) == t && s.FreeAsyncFd(0) == t;
  }

  lemma OneMore()
    ensures Leads(Server([Client(5, MARKED, EMPTY)], map[5 := 0], [], [0], {}, {}), Reply(0, "x"),
                  Server([Client(5, MARKED.(pendingWrite := true), X)], map[5 := 0], [0], [0], {}, {}))
  {
    hide Server.AddReply;
    assert EMPTY.Valid() && [] + [0] == [0];
    FirstReply(Server([Client(5, MARKED, EMPTY)], map[5 := 0], [], [0], {}, {}), 0, "x");
  }

  lemma ThenAccepts()
    ensures Leads(Server([Client(5, MARKED.(pendingWrite := true), X)], map[5 := 0], [0], [0], {}, {}), Accept(5),
                  Server([Client(5, MARKED.(pendingWrite := true), X), FRESH], map[5 := 1], [0], [0], {}, {}))
  {
    assert X.Valid();
  }

  lemma ThenReplies()
    ensures Leads(Server([Client(5, MARKED.(pendingWrite := true), X), FRESH], map[5 := 1], [0], [0], {}, {}),
                  Reply(1, "y"), HELD)
  {
    hide Server.AddReply;
    assert X.Valid() && EMPTY.Valid() && [0] + [1] == [0, 1];
    FirstReply(Server([Client(5, MARKED.(pendingWrite := true), X), FRESH], map[5 := 1], [0], [0], {}, {}), 1, "y");
  }
}
