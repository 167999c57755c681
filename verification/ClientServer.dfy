/** The lists of the server in place, and the methods that work through them. */
module ClientServer {
  import opened Replies
  import opened Delivery
  import opened DeliveryRuns

  class FlyServer {
    var clients: seq<Client>
    var byFd: map<int, nat>
    var clientsPendingWrite: seq<nat>
    var clientsToClose: seq<nat>
    var writable: set<int>
    ghost var wronged: set<nat>  // the clients that another's failure has marked for closing

    ghost function State(): Server
      reads this
    {
      Server(clients, byFd, clientsPendingWrite, clientsToClose, writable, wronged)
    }

    constructor ()
      ensures State() == START && State().Valid()
    {
      clients, byFd, clientsPendingWrite, clientsToClose, writable, wronged := [], map[], [], [], {}, {};
    }

    method CreateClient(fd: int)
      requires State().Valid() && Enabled(State(), Accept(fd))
      modifies this
      ensures State() == old(State()).Create(fd) && State().Valid()
    {
      hide Server.Valid, Server.Create;
      CreateKeeps(State(), Everybody(State()), fd);
      assert old(State()).Create(fd) ==
          Server(clients + [Client(fd, NO_FLAGS, EMPTY)], byFd[fd := |clients|], clientsPendingWrite,
                                               clientsToClose, writable, wronged) by { CreateIs(State(), fd); }
      byFd := byFd[fd := |clients|];
      clients := clients + [Client(fd, NO_FLAGS, EMPTY)];
    }

    method FreeClientAsync(id: nat)
      requires id < |clients|
      modifies `clients, `clientsToClose
      ensures State() == old(State()).FreeAsync(id)
    {
      if clients[id].flags.closeAsap {
        return;
      }
      clients := clients[id := clients[id].(flags := NO_FLAGS.(closeAsap := true))];
      clientsToClose := clientsToClose + [id];
    }

    /** The client that the table has for another's descriptor, if any, is marked. */
    method FreeClientAsyncByFd(fd: int, ghost id: nat)
      requires id < |clients| && clients[id].fd == fd && (fd in byFd ==> byFd[fd] < |clients|)
      modifies `clients, `clientsToClose, `wronged
      ensures State() == old(State()).FreeAsyncFd(id)
    {
      if fd !in byFd {
        return;
      }
      if State().MarksAnother(id) { wronged := wronged + {byFd[fd]}; }
      FreeClientAsync(byFd[fd]);
    }

    method AddToClientsPendingToWrite(fd: int)
      requires fd in byFd ==> byFd[fd] < |clients|
      modifies `clients, `clientsPendingWrite
      ensures State() == old(State()).AddToPending(fd)
    {
      if fd !in byFd {
        return;
      }
      var id := byFd[fd];
      if !clients[id].flags.pendingWrite {
        clients := clients[id := clients[id].(flags := clients[id].flags.(pendingWrite := true))];
        clientsPendingWrite := clientsPendingWrite + [id];
      }
    }

    method AddReply(id: nat, text: string)
      requires State().Valid() && id < |clients|
      modifies `clients, `clientsPendingWrite
      ensures State() == old(State()).AddReply(id, text) && State().Valid()
    {
      hide Out.Add, Cut, Server.Valid, Server.AddToPending;
      AddReplyKeeps(State(), Everybody(State()), id, text);
      assert clients[id].fd in byFd ==> byFd[clients[id].fd] < |clients| by { ValidAt(State(), id); }
      var c := clients[id];
      if c.fd < 0 {
        return;
      }
      if c.flags.master && !c.flags.forceReply {
        return;
      }
      if c.out.NothingPending() && !c.flags.pendingWrite {
        AddToClientsPendingToWrite(c.fd);
      }
      clients := clients[id := clients[id].(out := clients[id].out.Add(Cut(text), clients[id].flags.closeAfterReply))];
    }

    method WriteToClient(id: nat, handlerInstalled: bool, a: Answers) returns (res: int)
      requires State().Wf() && id < |clients|
      modifies `clients, `clientsToClose, `writable, `wronged
      ensures (State(), res) == old(State()).Write(id, handlerInstalled, a)
    {
      hide WriteAll, Out.Valid;
      WfAt(State(), id);
      var c := clients[id];
      var o, last := c.out, 0;
      if !c.out.NothingPending() {
        var r := WriteAll(c.out, a.taken, 0);
        o, last := r.0, r.2;
      }
      clients := clients[id := c.(out := o)];
      if last <= 0 && !a.again {
        FreeClientAsyncByFd(c.fd, id);
        return -1;
      }
      if o.NothingPending() {
        if handlerInstalled {
          writable := writable - {c.fd};
        }
        if c.flags.closeAfterReply {
          FreeClientAsyncByFd(c.fd, id);
          return -1;
        }
      }
      return 1;
    }

    method FlushClient(id: nat, a: Answers)
      requires State().Wf() && id < |clients|
      modifies `clients, `clientsToClose, `writable, `wronged
      ensures State() == old(State()).FlushOne(id, a)
    {
      hide Server.Write, Out.Valid, Server.FreeAsync;
      WfAt(State(), id);
      var c := clients[id];
      ghost var s := State().With(id, c.(flags := c.flags.(pendingWrite := false)));
      WfWith(State(), id, c.(flags := c.flags.(pendingWrite := false)));
      clients := clients[id := c.(flags := c.flags.(pendingWrite := false))];
      assert State() == s;
      var res := WriteToClient(id, false, a);
      if res == -1 {
        return;
      }
      if !clients[id].out.NothingPending() {
        if a.watched {
          writable := writable + {c.fd};
        } else {
          FreeClientAsync(id);
        }
      }
    }

    /** Write to all clients of the list and empty it. */
    method HandleClientsWithPendingWrites(answers: seq<Answers>) returns (pendingCount: nat)
      requires State().Valid() && |answers| == |clientsPendingWrite|
      modifies this
      ensures State() == old(State()).Flush(answers) && State().Valid() && pendingCount == |answers|
    {
      hide Server.Valid, Server.FlushOne, Out.Valid;
      pendingCount := |clientsPendingWrite|;
      ghost var s := State();
      FlushKeeps(s, Everybody(s), answers);
      ValidIsWf(s);
      for i := 0 to |clientsPendingWrite|
        invariant State().Wf() && clientsPendingWrite == s.pending && byFd == s.byFd
        invariant State().FlushFrom(i, answers) == s.FlushFrom(0, answers)
      {
        FlushOneWf(State(), i, answers[i]);
        FlushClient(clientsPendingWrite[i], answers[i]);
      }
      clientsPendingWrite := [];
    }

    /** A list without the first client that has a descriptor. */
    method DeleteFirst(list: seq<nat>, fd: int) returns (rest: seq<nat>)
      requires forall i :: 0 <= i < |list| ==> list[i] < |clients|
      ensures rest == State().WithoutFirst(list, fd)
    {
      hide Server.WithoutFirst;
      for i := 0 to |list|
        invariant forall j :: 0 <= j < i ==> clients[list[j]].fd != fd
      {
        if clients[list[i]].fd == fd {
          FirstIs(State(), list, fd, i);
          return list[..i] + list[i + 1..];
        }
      }
      NoFirst(State(), list, fd);
      return list;
    }

    method UnlinkClient(id: nat)
      requires State().Wf() && id < |clients|
      modifies this
      ensures State() == old(State()).Unlink(id)
    {
      hide Server.WithoutFirst, Out.Valid;
      var c := clients[id];
      if -1 != c.fd && c.fd in byFd {
        writable := writable - {c.fd};
        clients := clients[id := c.(fd := -1)];
        byFd := byFd - {-1};
      }
      if c.flags.pendingWrite {
        clientsPendingWrite := DeleteFirst(clientsPendingWrite, clients[id].fd);
      }
      clientsToClose := DeleteFirst(clientsToClose, clients[id].fd);
    }

    method FreeClientsInAsyncFreeList()
      requires State().Valid()
      modifies this
      ensures State() == Step(old(State()), CloseMarked) && State().Valid()
    {
      hide Server.Valid, Server.Unlink;
      var ids := clientsToClose;
      ValidIsWf(State());
      for i := 0 to |ids|
        invariant State().Valid() && forall j :: 0 <= j < |ids| ==> ids[j] < |clients|
        invariant UnlinkAll(State(), ids[i..]) == UnlinkAll(old(State()), ids)
      {
        assert ids[i..][0] == ids[i] && ids[i..][1..] == ids[i + 1..];
        ValidIsWf(State());
        UnlinkKeeps(State(), ids[i]);
        UnlinkChanges(State(), ids[i]);
        UnlinkClient(ids[i]);
      }
      NoneMarked(State(), {});
      clientsToClose := [];
    }
  }

  lemma {:induction false} FirstIs(s: Server, list: seq<nat>, fd: int, i: nat)
    requires i < |list| && forall j :: 0 <= j < |list| ==> list[j] < |s.clients|
    requires s.clients[list[i]].fd == fd && forall j :: 0 <= j < i ==> s.clients[list[j]].fd != fd
    ensures s.WithoutFirst(list, fd) == list[..i] + list[i + 1..]
    decreases i
  {
    if i == 0 {
      assert list[..0] + list[1..] == list[1..];
    } else {
      FirstIs(s, list[1..], fd, i - 1);
      WithoutHead(list, i);
      assert s.WithoutFirst(list, fd) == [list[0]] + s.WithoutFirst(list[1..], fd);
    }
  }

  lemma WithoutHead(list: seq<nat>, i: nat)
    requires 0 < i < |list|
    ensures [list[0]] + (list[1..][..i - 1] + list[1..][i..]) == list[..i] + list[i + 1..]
  {
    assert list[..i] == [list[0]] + list[1..][..i - 1];
    assert list[1..][i..] == list[i + 1..];
  }

  lemma {:induction false} NoFirst(s: Server, list: seq<nat>, fd: int)
    requires forall j :: 0 <= j < |list| ==> list[j] < |s.clients| && s.clients[list[j]].fd != fd
    ensures s.WithoutFirst(list, fd) == list
    decreases |list|
  {
    if list != [] { NoFirst(s, list[1..], fd); }
  }

  lemma ValidAt(s: Server, id: nat)
    requires s.Valid() && s.Has(id)
    ensures s.clients[id].fd in s.byFd ==> s.byFd[s.clients[id].fd] < |s.clients|
  {
  }

  lemma CreateIs(s: Server, fd: int)
    ensures s.Create(fd) ==
            Server(s.clients + [Client(fd, NO_FLAGS, EMPTY)], s.byFd[fd := |s.clients|], s.pending, s.toClose,
                s.writable, s.wronged)
  {
  }
}
