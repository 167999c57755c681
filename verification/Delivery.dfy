/** Who still owes what to whom: the clients of a server, the list of those with something new to send, and
    the descriptors that are watched for becoming writable. Clients are told by the order they came in; a
    client that has been freed has descriptor -1. */
module Delivery {
  import opened Replies

  datatype Flags = Flags(closeAfterReply: bool, pendingWrite: bool, closeAsap: bool, master: bool, forceReply: bool)

  const NO_FLAGS: Flags := Flags(false, false, false, false, false)

  datatype Client = Client(fd: int, flags: Flags, out: Out)

  /** What the world does when a client is written to: how much the socket takes each time, whether a failure
      is only for now, and whether the event loop accepts a new watch. */
  datatype Answers = Answers(taken: seq<int>, again: bool, watched: bool)

  /** `wronged` records the clients that were marked for closing because writing to another one failed or ended;
      nothing depends on it. */
  datatype Server = Server(clients: seq<Client>, byFd: map<int, nat>, pending: seq<nat>, toClose: seq<nat>,
                           writable: set<int>, wronged: set<nat>) {

    predicate Has(id: nat) { id < |clients| }

    function With(id: nat, c: Client): Server
      requires Has(id)
    {
      this.(clients := clients[id := c])
    }

    // --- the operations ------------------------------------------------------------------------------------------

    /** Mark for closing; this overwrites all other flags. */
    function FreeAsync(id: nat): (s: Server)
      requires Has(id)
      ensures |s.clients| == |clients|
    {
      var c := clients[id];
      if c.flags.closeAsap then this
      else With(id, c.(flags := NO_FLAGS.(closeAsap := true))).(toClose := toClose + [id])
    }

    /** Whether marking by a client's descriptor marks another one. */
    predicate MarksAnother(id: nat)
      requires Has(id) && (clients[id].fd in byFd ==> Has(byFd[clients[id].fd]))
    {
      var fd := clients[id].fd;
      fd in byFd && byFd[fd] != id && !clients[byFd[fd]].flags.closeAsap
    }

    /** Mark by the descriptor of a client. */
    function FreeAsyncFd(id: nat): (s: Server)
      requires Has(id) && (clients[id].fd in byFd ==> Has(byFd[clients[id].fd]))
      ensures |s.clients| == |clients|
    {
      var fd := clients[id].fd;
      if fd !in byFd then this
      else FreeAsync(byFd[fd]).(wronged := if MarksAnother(id) then wronged + {byFd[fd]} else wronged)
    }

    function AddToPending(fd: int): (s: Server)
      requires fd in byFd ==> Has(byFd[fd])
      ensures |s.clients| == |clients|
    {
      if fd in byFd && !clients[byFd[fd]].flags.pendingWrite then
        var id := byFd[fd];
        With(id, clients[id].(flags := clients[id].flags.(pendingWrite := true))).(pending := pending + [id])
      else this
    }

    /** Whether the client takes replies; one with nothing pending yet is put on the list. */
    function Prepare(id: nat): (r: (Server, bool))
      requires Has(id) && (clients[id].fd in byFd ==> Has(byFd[clients[id].fd]))
      ensures |r.0.clients| == |clients|
    {
      var c := clients[id];
      if c.fd < 0 then (this, false)
      else if c.flags.master && !c.flags.forceReply then (this, false)
      else if c.out.NothingPending() && !c.flags.pendingWrite then (AddToPending(c.fd), true)
      else (this, true)
    }

    function AddReply(id: nat, text: string): (s: Server)
      requires Has(id) && (clients[id].fd in byFd ==> Has(byFd[clients[id].fd]))
      ensures s.wronged == wronged
    {
      var (s, ok) := Prepare(id);
      if ok then
        var c := s.clients[id];
        s.With(id, c.(out := c.out.Add(Cut(text), c.flags.closeAfterReply)))
      else s
    }

    /** Whether writing to a client ends in closing: by a failure, or because its last reply is out. */
    predicate Ends(id: nat, a: Answers)
      requires Has(id) && clients[id].out.Valid()
    {
      var c := clients[id];
      var (o, sent, last) := if c.out.NothingPending() then (c.out, [], 0) else WriteAll(c.out, a.taken, 0);
      (last <= 0 && !a.again) || (o.NothingPending() && c.flags.closeAfterReply)
    }

    /** Send what a client has pending. A failure, or the end of the last reply, leads to closing. */
    function Write(id: nat, handler: bool, a: Answers): (r: (Server, int))
      requires Has(id) && clients[id].out.Valid() && (clients[id].fd in byFd ==> Has(byFd[clients[id].fd]))
      ensures |r.0.clients| == |clients| && r.0.pending == pending && r.0.byFd == byFd
      ensures r.0.wronged == if Ends(id, a) && MarksAnother(id) then wronged + {byFd[clients[id].fd]} else wronged
    {
      var c := clients[id];
      var (o, sent, last) := if c.out.NothingPending() then (c.out, [], 0) else WriteAll(c.out, a.taken, 0);
      var s := With(id, c.(out := o));
      if last <= 0 && !a.again then (s.FreeAsyncFd(id), -1)
      else if o.NothingPending() then
        var t := if handler then s.(writable := writable - {c.fd}) else s;
        if c.flags.closeAfterReply then (t.FreeAsyncFd(id), -1) else (t, 1)
      else (s, 1)
    }

    /** One client of the list: written to at once, and watched if something is left. */
    function FlushOne(id: nat, a: Answers): (s: Server)
      requires Has(id) && clients[id].out.Valid() && (clients[id].fd in byFd ==> Has(byFd[clients[id].fd]))
      ensures |s.clients| == |clients| && s.pending == pending && s.byFd == byFd
      ensures s.wronged == if Ends(id, a) && MarksAnother(id) then wronged + {byFd[clients[id].fd]} else wronged
    {
      var c := clients[id];
      var s := With(id, c.(flags := c.flags.(pendingWrite := false)));
      var (t, res) := s.Write(id, false, a);
      if res == -1 || t.clients[id].out.NothingPending() then t
      else if a.watched then t.(writable := t.writable + {c.fd})
      else t.FreeAsync(id)
    }

    function FlushFrom(i: nat, answers: seq<Answers>): (s: Server)
      requires Wf() && i <= |pending| == |answers|
      decreases |pending| - i
    {
      if i == |pending| then this
      else
        FlushOneWf(this, i, answers[i]);
        FlushOne(pending[i], answers[i]).FlushFrom(i + 1, answers)
    }

    /** All clients of the list, which is empty afterwards. */
    function Flush(answers: seq<Answers>): (s: Server)
      requires Wf() && |answers| == |pending|
    {
      FlushFrom(0, answers).(pending := [])
    }

    function Create(fd: int): (s: Server)
      ensures s.wronged == wronged
    {
      this.(clients := clients + [Client(fd, NO_FLAGS, EMPTY)], byFd := byFd[fd := |clients|])
    }

    /** The first of some clients that has a descriptor. */
    function WithoutFirst(list: seq<nat>, fd: int): seq<nat>
      requires forall i :: 0 <= i < |list| ==> list[i] < |clients|
      ensures forall i :: 0 <= i < |WithoutFirst(list, fd)| ==> WithoutFirst(list, fd)[i] in list
    {
      if list == [] then []
      else if clients[list[0]].fd == fd then list[1..]
      else [list[0]] + WithoutFirst(list[1..], fd)
    }

    /** Take a client out of the lists. Its descriptor is set to -1 before it is used as a key, so that the
        table of descriptors keeps its entry. */
    function Unlink(id: nat): (s: Server)
      requires Has(id)
      requires forall i :: 0 <= i < |pending| ==> pending[i] < |clients|
      requires forall i :: 0 <= i < |toClose| ==> toClose[i] < |clients|
      ensures |s.clients| == |clients| && s.wronged == wronged
    {
      var c := clients[id];
      var s := if c.fd != -1 && c.fd in byFd
               then With(id, c.(fd := -1)).(writable := writable - {c.fd}, byFd := byFd - {-1}) else this;
      var t := if c.flags.pendingWrite then s.(pending := s.WithoutFirst(pending, s.clients[id].fd)) else s;
      t.(toClose := t.WithoutFirst(toClose, t.clients[id].fd))
    }

    // --- what always holds ---------------------------------------------------------------------------------------

    ghost predicate Wf() {
      && (forall id :: 0 <= id < |clients| ==> clients[id].out.Valid())
      && (forall fd :: fd in byFd ==> byFd[fd] < |clients| && fd > 0)
      && (forall i :: 0 <= i < |pending| ==> pending[i] < |clients|)
      && (forall i :: 0 <= i < |toClose| ==> toClose[i] < |clients|)
    }

    /** The table of descriptors leads to every client that has one and is not going to be closed. A client
        that is may share its descriptor with one that came later, which then is the one in the table. */
    ghost predicate Registered() {
      && (forall id :: 0 <= id < |clients| && clients[id].fd != -1 ==>
            clients[id].fd in byFd && (clients[id].flags.closeAsap || byFd[clients[id].fd] == id))
      && (forall fd :: fd in byFd && byFd[fd] < |clients| ==> clients[byFd[fd]].fd in {fd, -1})
    }

    ghost predicate FlagsListed(list: seq<nat>) {
      forall id :: 0 <= id < |clients| && clients[id].fd != -1 && clients[id].flags.pendingWrite ==> id in list
    }

    ghost predicate Marked() {
      forall i :: 0 <= i < |toClose| && toClose[i] < |clients| ==> clients[toClose[i]].flags.closeAsap
    }

    ghost predicate Sound(list: seq<nat>) { Wf() && Registered() && FlagsListed(list) && Marked() }

    ghost predicate Valid() { Sound(pending) }

    /** A client with output pending is flagged, watched, or going to be closed. */
    predicate Covered(id: nat)
      requires Has(id)
    {
      var c := clients[id];
      c.fd == -1 || c.flags.closeAsap || c.out.NothingPending() || c.flags.pendingWrite || c.fd in writable
    }

    /** All clients but some are looked after. */
    ghost predicate CoveredBut(lost: set<nat>) {
      forall id :: 0 <= id < |clients| && id !in lost ==> Covered(id)
    }

    /** Everybody is looked after, and nobody is to be closed for another's sake. */
    ghost predicate NoLostOutput() { CoveredBut({}) && wronged == {} }

    /** The table of descriptors does not lead elsewhere from this client's. */
    predicate Holds(id: nat)
      requires Has(id)
    {
      clients[id].fd in byFd ==> byFd[clients[id].fd] == id
    }
  }

  lemma FlushOneWf(s: Server, i: nat, a: Answers)
    requires s.Wf() && i < |s.pending|
    ensures var id := s.pending[i];
            && s.Has(id) && s.clients[id].out.Valid()
               && (s.clients[id].fd in s.byFd ==> s.Has(s.byFd[s.clients[id].fd]))
            && s.FlushOne(id, a).Wf()
  {
    hide WriteAll, Out.Valid, Out.Pending;
    var id := s.pending[i];
    var c := s.clients[id];
    if !c.out.NothingPending() { WriteKeepsOrder(c.out, a.taken, 0); }
  }

  // --- each operation keeps it -----------------------------------------------------------------------------------

  // What is proved of each operation: the structure is kept, and so is coverage, whichever clients are already
  // out of sight. With none out of sight this is that no output gets lost.

  /** Changing one client, the lists and its own watch leaves all other clients as they were. */
  lemma OneChanged(s: Server, list: seq<nat>, lost: set<nat>, id: nat, t: Server, list': seq<nat>)
    requires s.Sound(list) && s.CoveredBut(lost + {id}) && s.Has(id) && t.Wf()
    requires |t.clients| == |s.clients| && t.byFd == s.byFd && t.clients[id].fd == s.clients[id].fd
    requires forall j :: 0 <= j < |s.clients| && j != id ==> t.clients[j] == s.clients[j]
    requires s.writable <= t.writable || (s.Holds(id) && s.writable - {s.clients[id].fd} <= t.writable)
    requires forall j :: j in list && j != id ==> j in list'
    requires t.clients[id].flags.pendingWrite && t.clients[id].fd != -1 ==> id in list'
    requires s.clients[id].flags.closeAsap ==> t.clients[id].flags.closeAsap
    requires t.toClose == s.toClose || (t.toClose == s.toClose + [id] && t.clients[id].flags.closeAsap)
    ensures t.Sound(list') && t.CoveredBut(lost + {id}) && (t.Covered(id) ==> t.CoveredBut(lost))
  {
    hide Out.Valid;
    assert t.Registered() && t.FlagsListed(list') && t.Marked();
    forall j | 0 <= j < |t.clients| && j !in lost + {id} ensures t.Covered(j) {
      assert s.Covered(j);
    }
  }

  lemma FreeAsyncKeeps(s: Server, list: seq<nat>, lost: set<nat>, id: nat)
    requires s.Sound(list) && s.CoveredBut(lost + {id}) && s.Has(id)
    ensures var t := s.FreeAsync(id); t.Sound(list) && t.CoveredBut(lost) && t.clients[id].fd == s.clients[id].fd
  {
    hide Out.Valid;
    OneChanged(s, list, lost, id, s.FreeAsync(id), list);
  }

  /** Closing by descriptor closes the client that the table has for it: this one, unless it is already going to
      be closed. */
  lemma FreeAsyncFdKeeps(s: Server, list: seq<nat>, lost: set<nat>, id: nat)
    requires s.Sound(list) && s.CoveredBut(lost + {id}) && s.Has(id)
    ensures var fd := s.clients[id].fd;
            && (fd in s.byFd ==> s.Has(s.byFd[fd]))
            && var t := s.FreeAsyncFd(id); t.Sound(list) && t.CoveredBut(lost) && t.clients[id].fd == fd
  {
    hide Out.Valid;
    var fd := s.clients[id].fd;
    if fd in s.byFd && s.byFd[fd] == id {
      FreeAsyncKeeps(s, list, lost, id);
    } else {
      assert s.Covered(id);
      assert s.CoveredBut(lost);
      if fd in s.byFd { FreeAsyncKeeps(s, list, lost, s.byFd[fd]); }
    }
  }

  lemma AddReplyKeeps(s: Server, lost: set<nat>, id: nat, text: string)
    requires s.Valid() && s.CoveredBut(lost) && s.Has(id)
    ensures s.clients[id].fd in s.byFd ==> s.Has(s.byFd[s.clients[id].fd])
    ensures s.AddReply(id, text).Valid() && s.AddReply(id, text).CoveredBut(lost)
  {
    hide Out.Valid, Out.Pending, Out.Add, Cut, Server.Wf;
    assert s.clients[id].fd in s.byFd ==> s.Has(s.byFd[s.clients[id].fd]) by { WfAt(s, id); }
    var (t, ok) := s.Prepare(id);
    PrepareKeeps(s, lost, id);
    if ok {
      var c := t.clients[id];
      var c' := c.(out := c.out.Add(Cut(text), c.flags.closeAfterReply));
      WfAt(t, id);
      AddAppends(c.out, Cut(text), c.flags.closeAfterReply);
      WfWith(t, id, c');
      OneChanged(t, t.pending, lost, id, t.With(id, c'), t.pending);
    }
  }

  lemma WfAt(s: Server, id: nat)
    requires s.Wf() && s.Has(id)
    ensures s.clients[id].out.Valid()
    ensures s.clients[id].fd in s.byFd ==> s.Has(s.byFd[s.clients[id].fd])
  {
  }

  lemma WfWith(s: Server, id: nat, c: Client)
    requires s.Wf() && s.Has(id) && c.out.Valid()
    ensures s.With(id, c).Wf()
  {
    hide Out.Valid;
  }

  /** A client that takes a reply is looked after, whether or not it had something pending, unless it was out of
      sight already. */
  lemma PrepareKeeps(s: Server, lost: set<nat>, id: nat)
    requires s.Valid() && s.CoveredBut(lost) && s.Has(id)
    ensures s.clients[id].fd in s.byFd ==> s.Has(s.byFd[s.clients[id].fd])
    ensures var (t, ok) := s.Prepare(id);
            && t.Valid() && t.CoveredBut(lost) && |t.clients| == |s.clients|
            && (ok && id !in lost ==> var c := t.clients[id];
                       c.fd != -1 && (c.flags.closeAsap || c.flags.pendingWrite || c.fd in t.writable))
  {
    hide Out.Valid;
    var (t, ok) := s.Prepare(id);
    assert id in lost || s.Covered(id);
    if t != s {
      var k := s.byFd[s.clients[id].fd];
      assert s.clients[id].flags.closeAsap || k == id;
      OneChanged(s, s.pending, lost, k, t, t.pending);
    }
  }

  lemma WriteKeeps(s: Server, list: seq<nat>, lost: set<nat>, id: nat, handler: bool, a: Answers)
    requires s.Sound(list) && s.CoveredBut(lost + {id}) && s.Has(id) && (handler ==> s.Holds(id))
    ensures s.clients[id].out.Valid() && (s.clients[id].fd in s.byFd ==> s.Has(s.byFd[s.clients[id].fd]))
    ensures var (t, res) := s.Write(id, handler, a);
            && t.Sound(list) && t.clients[id].fd == s.clients[id].fd && t.CoveredBut(lost + {id})
            && (res == -1 || t.clients[id].out.NothingPending() || s.Covered(id) ==> t.CoveredBut(lost))
  {
    hide Out.Valid, Out.Pending, WriteAll, Server.FreeAsyncFd;
    var c := s.clients[id];
    if !c.out.NothingPending() { WriteKeepsOrder(c.out, a.taken, 0); }
    var (o, sent, last) := if c.out.NothingPending() then (c.out, [], 0) else WriteAll(c.out, a.taken, 0);
    var t := s.With(id, c.(out := o));
    OneChanged(s, list, lost, id, t, list);
    FreeAsyncFdKeeps(t, list, lost, id);
    if o.NothingPending() && handler {
      var u := t.(writable := t.writable - {c.fd});
      OneChanged(s, list, lost, id, u, list);
      FreeAsyncFdKeeps(u, list, lost, id);
    }
  }

  lemma FlushOneKeeps(s: Server, lost: set<nat>, i: nat, a: Answers)
    requires i < |s.pending| && s.Sound(s.pending[i..]) && s.CoveredBut(lost)
    ensures s.Has(s.pending[i]) && s.clients[s.pending[i]].out.Valid()
    ensures s.clients[s.pending[i]].fd in s.byFd ==> s.Has(s.byFd[s.clients[s.pending[i]].fd])
    ensures var t := s.FlushOne(s.pending[i], a); t.Sound(t.pending[i + 1..]) && t.CoveredBut(lost)
  {
    hide Out.Valid, Out.Pending, Server.Write, Server.FreeAsync;
    var id := s.pending[i];
    var c := s.clients[id];
    var list := s.pending[i + 1..];
    assert s.pending[i..] == [id] + list;
    var u := s.With(id, c.(flags := c.flags.(pendingWrite := false)));
    OneChanged(s, s.pending[i..], lost, id, u, list);
    WriteKeeps(u, list, lost, id, false, a);
    var (t, res) := u.Write(id, false, a);
    if res != -1 && !t.clients[id].out.NothingPending() {
      if a.watched {
        OneChanged(t, list, lost, id, t.(writable := t.writable + {c.fd}), list);
      } else {
        FreeAsyncKeeps(t, list, lost, id);
      }
    }
  }
}
