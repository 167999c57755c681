/** Runs of a server: replies, flushes, writable descriptors, new and leaving clients; and when it is that
    output gets lost. */
module DeliveryRuns {
  import opened Replies
  import opened Delivery

  lemma {:induction false} FlushFromKeeps(s: Server, lost: set<nat>, i: nat, answers: seq<Answers>)
    requires i <= |s.pending| == |answers| && s.Sound(s.pending[i..]) && s.CoveredBut(lost)
    ensures var t := s.FlushFrom(i, answers).(pending := []); t.Valid() && t.CoveredBut(lost)
    decreases |s.pending| - i
  {
    hide Out.Valid, Server.FlushOne;
    if i < |s.pending| {
      FlushOneKeeps(s, lost, i, answers[i]);
      FlushFromKeeps(s.FlushOne(s.pending[i], answers[i]), lost, i + 1, answers);
    } else {
      assert s.pending[i..] == [];
      Emptied(s, lost);
    }
  }

  lemma Emptied(s: Server, lost: set<nat>)
    requires s.Sound([]) && s.CoveredBut(lost)
    ensures s.(pending := []).Valid() && s.(pending := []).CoveredBut(lost)
  {
    hide Out.Valid;
    forall id | 0 <= id < |s.clients| && id !in lost ensures s.(pending := []).Covered(id) { assert s.Covered(id); }
  }

  lemma FlushKeeps(s: Server, lost: set<nat>, answers: seq<Answers>)
    requires s.Valid() && s.CoveredBut(lost) && |answers| == |s.pending|
    ensures s.Flush(answers).Valid() && s.Flush(answers).CoveredBut(lost)
  {
    hide Out.Valid, Server.FlushFrom;
    assert s.pending[0..] == s.pending;
    FlushFromKeeps(s, lost, 0, answers);
  }

  /** Along the flush, no client's write ends in marking another. */
  ghost predicate OwnFrom(s: Server, i: nat, answers: seq<Answers>)
    requires s.Wf() && i <= |s.pending| == |answers|
    decreases |s.pending| - i
  {
    i == |s.pending| ||
    (FlushOneWf(s, i, answers[i]);
     !(s.Ends(s.pending[i], answers[i]) && s.MarksAnother(s.pending[i]))
     && OwnFrom(s.FlushOne(s.pending[i], answers[i]), i + 1, answers))
  }

  lemma {:induction false} FlushFromOwn(s: Server, i: nat, answers: seq<Answers>)
    requires s.Wf() && i <= |s.pending| == |answers|
    ensures s.FlushFrom(i, answers).wronged == {} <==> s.wronged == {} && OwnFrom(s, i, answers)
    decreases |s.pending| - i
  {
    hide Out.Valid, Server.FlushOne, Server.Wf, Server.Ends;
    if i < |s.pending| {
      FlushOneWf(s, i, answers[i]);
      FlushFromOwn(s.FlushOne(s.pending[i], answers[i]), i + 1, answers);
    }
  }

  /** A flush marks nobody for another's sake exactly when no write along it ends so. */
  lemma FlushExactly(s: Server, answers: seq<Answers>)
    requires s.Valid() && s.NoLostOutput() && |answers| == |s.pending|
    ensures s.Flush(answers).NoLostOutput() <==> OwnFrom(s, 0, answers)
  {
    hide Out.Valid, Server.FlushFrom, OwnFrom;
    FlushKeeps(s, {}, answers);
    FlushFromOwn(s, 0, answers);
  }

  /** A new client may get a descriptor that one has that is going to be closed. */
  lemma CreateKeeps(s: Server, lost: set<nat>, fd: int)
    requires s.Valid() && s.CoveredBut(lost) && fd > 0
    requires fd in s.byFd ==> var c := s.clients[s.byFd[fd]]; c.fd == -1 || c.flags.closeAsap
    ensures s.Create(fd).Valid() && s.Create(fd).CoveredBut(lost)
  {
    hide Out.Pending;
    var t := s.Create(fd);
    forall id | 0 <= id < |t.clients| && id !in lost ensures t.Covered(id) {
      if id < |s.clients| { assert s.Covered(id); }
    }
    assert EMPTY.Valid();
  }

  // --- taking clients out ----------------------------------------------------------------------------------------

  lemma {:induction false} OnlyFirstGone(s: Server, list: seq<nat>, fd: int)
    requires forall i :: 0 <= i < |list| ==> list[i] < |s.clients|
    ensures forall x :: x in list && s.clients[x].fd != fd ==> x in s.WithoutFirst(list, fd)
    ensures forall i :: 0 <= i < |s.WithoutFirst(list, fd)| ==> s.WithoutFirst(list, fd)[i] < |s.clients|
    decreases |list|
  {
    if list != [] { OnlyFirstGone(s, list[1..], fd); }
  }

  lemma UnlinkChanges(s: Server, id: nat)
    requires s.Wf() && s.Has(id)
    ensures var c, t := s.clients[id], s.Unlink(id);
            && t.Wf() && |t.clients| == |s.clients|
            && (forall j :: 0 <= j < |s.clients| && j != id ==> t.clients[j] == s.clients[j])
            && (if c.fd != -1 && c.fd in s.byFd then t.clients[id] == c.(fd := -1) && t.writable == s.writable - {c.fd}
                else t.clients[id] == c && t.writable == s.writable)
            && t.byFd == s.byFd && (forall i :: 0 <= i < |t.toClose| ==> t.toClose[i] in s.toClose)
            && (t.clients[id].fd == -1 ==> forall x :: x in s.pending && t.clients[x].fd != -1 ==> x in t.pending)
  {
    hide Out.Valid, Server.WithoutFirst;
    var c := s.clients[id];
    var u := if c.fd != -1 && c.fd in s.byFd
             then s.With(id, c.(fd := -1)).(writable := s.writable - {c.fd}, byFd := s.byFd - {-1}) else s;
    assert s.byFd - {-1} == s.byFd;
    OnlyFirstGone(u, u.pending, u.clients[id].fd);
    var v := if c.flags.pendingWrite then u.(pending := u.WithoutFirst(s.pending, u.clients[id].fd)) else u;
    OnlyFirstGone(v, v.toClose, v.clients[id].fd);
  }

  lemma UnlinkKeeps(s: Server, id: nat)
    requires s.Valid() && s.Has(id)
    ensures s.Unlink(id).Valid()
    ensures forall j :: 0 <= j < |s.clients| ==> s.Unlink(id).clients[j].flags == s.clients[j].flags
  {
    hide Out.Valid, Server.Unlink;
    UnlinkChanges(s, id);
  }

  /** A client that is sent to only when its descriptor becomes writable. */
  predicate NeedsWatch(c: Client) {
    c.fd != -1 && !c.flags.closeAsap && !c.out.NothingPending() && !c.flags.pendingWrite
  }

  /** No other client under the same descriptor needs its watch. */
  ghost predicate SafeUnlink(s: Server, id: nat)
    requires s.Has(id)
  {
    s.clients[id].fd != -1 && s.clients[id].fd in s.byFd ==>
      forall j :: 0 <= j < |s.clients| && j != id && s.clients[j].fd == s.clients[id].fd ==> !NeedsWatch(s.clients[j])
  }

  /** Whoever has which descriptor: freeing a client leaves no output behind exactly when no other client
      under the same descriptor needs its watch. */
  lemma UnlinkExactly(s: Server, id: nat)
    requires s.Wf() && s.NoLostOutput() && s.Has(id)
    ensures s.Unlink(id).NoLostOutput() <==> SafeUnlink(s, id)
  {
    hide Out.Valid, Server.Unlink;
    UnlinkChanges(s, id);
    var c, t := s.clients[id], s.Unlink(id);
    var unlinked := c.fd != -1 && c.fd in s.byFd;
    forall j | 0 <= j < |s.clients|
      ensures t.Covered(j) <==> (unlinked && j != id && s.clients[j].fd == c.fd ==> !NeedsWatch(s.clients[j]))
    {
      assert s.Covered(j);
    }
  }

  /** All clients marked for closing, from a copy of their list. */
  function UnlinkAll(s: Server, ids: seq<nat>): (t: Server)
    requires s.Valid() && forall i :: 0 <= i < |ids| ==> ids[i] < |s.clients|
    ensures t.Valid() && t.wronged == s.wronged
    decreases |ids|
  {
    if ids == [] then s
    else
      UnlinkKeeps(s, ids[0]);
      UnlinkAll(s.Unlink(ids[0]), ids[1..])
  }

  ghost predicate AllMarked(s: Server, ids: seq<nat>) {
    forall i :: 0 <= i < |ids| ==> ids[i] < |s.clients| && s.clients[ids[i]].flags.closeAsap
  }

  /** None of them has a descriptor that a client needs watched. */
  ghost predicate SafeToClose(s: Server, ids: seq<nat>)
    requires AllMarked(s, ids)
  {
    forall i :: 0 <= i < |ids| ==> SafeUnlink(s, ids[i])
  }

  /** Output that is out of sight stays so while other clients are freed. */
  lemma {:induction false} LostStays(s: Server, ids: seq<nat>, j: nat)
    requires s.Valid() && AllMarked(s, ids) && s.Has(j) && !s.Covered(j)
    ensures s.Has(j) && !UnlinkAll(s, ids).NoLostOutput()
    decreases |ids|
  {
    hide Out.Valid, Server.Unlink, Server.Valid;
    if ids != [] {
      ValidIsWf(s);
      UnlinkKeeps(s, ids[0]);
      UnlinkChanges(s, ids[0]);
      LostStays(s.Unlink(ids[0]), ids[1..], j);
    }
  }

  lemma ValidIsWf(s: Server)
    requires s.Valid()
    ensures s.Wf() && AllMarked(s, s.toClose)
  {
  }

  /** Freeing one marked client does not change whether freeing another is safe. */
  lemma SafeStays(s: Server, id: nat, other: nat)
    requires s.Wf() && s.Has(id) && s.Has(other) && s.clients[id].flags.closeAsap && SafeUnlink(s, id)
    ensures s.Unlink(id).Has(other) && (SafeUnlink(s.Unlink(id), other) <==> SafeUnlink(s, other))
  {
    hide Out.Valid, Server.Unlink;
    UnlinkChanges(s, id);
    var t := s.Unlink(id);
    forall j | 0 <= j < |s.clients| ensures NeedsWatch(t.clients[j]) <==> NeedsWatch(s.clients[j]) {}
    assert other != id ==> forall j :: 0 <= j < |s.clients| && NeedsWatch(s.clients[j]) ==>
        t.clients[j].fd == s.clients[j].fd;
  }

  /** Freeing all marked clients leaves no output behind exactly when no client needs the watch of one of
      their descriptors. */
  lemma {:induction false} UnlinkAllExactly(s: Server, ids: seq<nat>)
    requires s.Valid() && AllMarked(s, ids) && s.NoLostOutput()
    ensures UnlinkAll(s, ids).NoLostOutput() <==> SafeToClose(s, ids)
    decreases |ids|
  {
    hide Out.Valid, Server.Unlink, Server.Valid, SafeUnlink;
    if ids != [] {
      ValidIsWf(s);
      var id, more, t := ids[0], ids[1..], s.Unlink(ids[0]);
      UnlinkKeeps(s, id);
      UnlinkExactly(s, id);
      assert AllMarked(t, more);
      if SafeUnlink(s, id) {
        UnlinkAllExactly(t, more);
        assert forall i :: 0 <= i < |more| ==> ids[i + 1] == more[i];
        forall i | 0 <= i < |more| ensures SafeBoth(s, t, more[i]) { SafeStays(s, id, more[i]); }
        assert ids == [id] + more;
        SafeCons(s, t, id, more);
      } else {
        var j :| 0 <= j < |t.clients| && !t.Covered(j);
        LostStays(t, more, j);
      }
    }
  }

  ghost predicate SafeBoth(s: Server, t: Server, id: nat) {
    s.Has(id) && t.Has(id) && (SafeUnlink(t, id) <==> SafeUnlink(s, id))
  }

  lemma SafeCons(s: Server, t: Server, id: nat, more: seq<nat>)
    requires AllMarked(s, [id] + more) && AllMarked(t, more) && s.Has(id) && SafeUnlink(s, id)
    requires forall i :: 0 <= i < |more| ==> SafeBoth(s, t, more[i])
    ensures SafeToClose(s, [id] + more) <==> SafeToClose(t, more)
  {
    hide SafeUnlink;
    var ids := [id] + more;
    assert forall i :: 0 <= i < |more| ==> ids[i + 1] == more[i];
  }

  lemma NoneMarked(s: Server, lost: set<nat>)
    requires s.Valid()
    ensures s.(toClose := []).Valid() && (s.(toClose := []).CoveredBut(lost) <==> s.CoveredBut(lost))
  {
    hide Out.Valid;
    forall id | 0 <= id < |s.clients| ensures s.(toClose := []).Covered(id) <==> s.Covered(id) {}
  }

  // --- runs ------------------------------------------------------------------------------------------------------

  datatype Event =
    | Reply(id: nat, text: string)
    | FlushAll(answers: seq<Answers>)
    | Writable(fd: int, a: Answers)
    | Accept(fd: int)
    | HangUp(fd: int)
    | CloseMarked
    | CloseAfterReply(id: nat)

  /** What the world keeps to. A descriptor may be given to a new client as soon as it has been closed, which
      may be before the client that had it is freed: from when that is marked for closing. */
  predicate Enabled(s: Server, e: Event)
    requires forall fd :: fd in s.byFd ==> s.byFd[fd] < |s.clients|
  {
    match e
    case Reply(id, _) => s.Has(id)
    case FlushAll(answers) => |answers| == |s.pending|
    case Writable(fd, _) => fd in s.byFd
    case Accept(fd) => fd > 0 && (fd in s.byFd ==> var c := s.clients[s.byFd[fd]]; c.fd == -1 || c.flags.closeAsap)
    case HangUp(fd) => fd in s.byFd
    case CloseMarked => true
    case CloseAfterReply(id) => s.Has(id)
  }

  function CloseAfter(s: Server, id: nat): (t: Server)
    requires s.Has(id)
    ensures t.wronged == s.wronged
  {
    s.With(id, s.clients[id].(flags := s.clients[id].flags.(closeAfterReply := true)))
  }

  lemma CloseAfterKeeps(s: Server, lost: set<nat>, id: nat)
    requires s.Valid() && s.CoveredBut(lost) && s.Has(id)
    ensures CloseAfter(s, id).Valid() && CloseAfter(s, id).CoveredBut(lost)
  {
    hide Out.Valid;
    assert id in lost || s.Covered(id);
    OneChanged(s, s.pending, lost, id, CloseAfter(s, id), s.pending);
  }

  lemma WritableKeeps(s: Server, lost: set<nat>, fd: int, a: Answers)
    requires s.Valid() && s.CoveredBut(lost) && fd in s.byFd
    ensures var id := s.byFd[fd];
            && s.Has(id) && s.clients[id].out.Valid()
               && (s.clients[id].fd in s.byFd ==> s.Has(s.byFd[s.clients[id].fd]))
            && s.Write(id, true, a).0.Valid() && s.Write(id, true, a).0.CoveredBut(lost)
            && s.Write(id, true, a).0.wronged == s.wronged
  {
    hide Out.Valid, Server.Write;
    var id := s.byFd[fd];
    assert s.Has(id) && s.Holds(id);
    assert id in lost || s.Covered(id);
    WriteKeeps(s, s.pending, lost, id, true, a);
  }

  /** A client that hangs up has no descriptor but its own, which no other client needs. */
  lemma HangUpSafe(s: Server, fd: int)
    requires s.Valid() && fd in s.byFd
    ensures s.Has(s.byFd[fd]) && SafeUnlink(s, s.byFd[fd])
  {
    hide Out.Valid;
  }

  function Below(n: nat): (ids: set<nat>)
    ensures forall id: nat :: id < n ==> id in ids
  {
    if n == 0 then {} else Below(n - 1) + {n - 1}
  }

  function Everybody(s: Server): (lost: set<nat>)
    ensures s.CoveredBut(lost)
  {
    Below(|s.clients|)
  }

  function Step(s: Server, e: Event): (t: Server)
    requires s.Valid() && Enabled(s, e)
    ensures t.Valid()
  {
    hide Out.Valid, Server.Write, Server.Flush, Server.AddReply, Server.Unlink, Server.Create, CloseAfter;
    hide Server.CoveredBut;
    ghost var lost := Everybody(s);
    match e
    case Reply(id, text) => AddReplyKeeps(s, lost, id, text); s.AddReply(id, text)
    case FlushAll(answers) => FlushKeeps(s, lost, answers); s.Flush(answers)
    case Writable(fd, a) => WritableKeeps(s, lost, fd, a); s.Write(s.byFd[fd], true, a).0
    case Accept(fd) => CreateKeeps(s, lost, fd); s.Create(fd)
    case HangUp(fd) => UnlinkKeeps(s, s.byFd[fd]); s.Unlink(s.byFd[fd])
    case CloseMarked => var t := UnlinkAll(s, s.toClose); NoneMarked(t, {}); t.(toClose := [])
    case CloseAfterReply(id) => CloseAfterKeeps(s, lost, id); CloseAfter(s, id)
  }

  /** A flush is safe when no write along it ends in marking another client; closing is, when no marked client has
      a descriptor that another needs watched. */
  ghost predicate SafeStep(s: Server, e: Event)
    requires s.Valid()
  {
    && (e.FlushAll? && |e.answers| == |s.pending| ==> OwnFrom(s, 0, e.answers))
    && (e.CloseMarked? && AllMarked(s, s.toClose) ==> SafeToClose(s, s.toClose))
  }

  /** From a state with no output lost: exactly the safe steps lose none. */
  lemma StepExactly(s: Server, e: Event)
    requires s.Valid() && s.NoLostOutput() && Enabled(s, e)
    ensures Step(s, e).NoLostOutput() <==> SafeStep(s, e)
  {
    hide Out.Valid, Server.Write, Server.Flush, Server.AddReply, Server.Unlink, Server.Create, CloseAfter;
    hide Server.CoveredBut;
    hide SafeUnlink, SafeToClose, UnlinkAll;
    match e
    case Reply(id, text) => AddReplyKeeps(s, {}, id, text);
    case FlushAll(answers) => FlushExactly(s, answers);
    case Writable(fd, a) => WritableKeeps(s, {}, fd, a);
    case Accept(fd) => CreateKeeps(s, {}, fd);
    case HangUp(fd) =>
      HangUpSafe(s, fd);
      UnlinkExactly(s, s.byFd[fd]);
    case CloseMarked =>
      ValidIsWf(s);
      UnlinkAllExactly(s, s.toClose);
      NoneMarked(UnlinkAll(s, s.toClose), {});
    case CloseAfterReply(id) => CloseAfterKeeps(s, {}, id);
  }

  ghost predicate RunOf(states: seq<Server>, events: seq<Event>) {
    && |states| == |events| + 1 && states[0] == START
    && (forall i :: 0 <= i < |events| ==> states[i].Valid() && Enabled(states[i], events[i])
                                           && states[i + 1] == Step(states[i], events[i]))
  }

  const START: Server := Server([], map[], [], [], {}, {})

  lemma RunValid(states: seq<Server>, events: seq<Event>, i: nat)
    requires RunOf(states, events) && i < |states|
    ensures states[i].Valid() && AllMarked(states[i], states[i].toClose)
  {
    hide Step, Enabled;
    if i > 0 { assert states[i] == Step(states[i - 1], events[i - 1]); }
    ValidIsWf(states[i]);
  }

  /** Output is never lost in a run exactly when, each time the marked clients are freed, none of them has a
      descriptor that another client needs watched. */
  lemma NothingLostExactly(states: seq<Server>, events: seq<Event>)
    requires RunOf(states, events)
    ensures (forall i :: 0 <= i < |states| ==> states[i].NoLostOutput()) <==>
            (forall i :: 0 <= i < |events| ==> SafeStep(states[i], events[i]))
  {
    hide Step, Enabled, SafeStep, Server.Valid, Server.CoveredBut;
    if forall i :: 0 <= i < |states| ==> states[i].NoLostOutput() {
      forall i | 0 <= i < |events| ensures SafeStep(states[i], events[i]) {
        assert states[i].NoLostOutput() && states[i + 1].NoLostOutput();
        StepExactly(states[i], events[i]);
      }
    }
    if forall i :: 0 <= i < |events| ==> SafeStep(states[i], events[i]) {
      forall i | 0 <= i < |states| ensures states[i].NoLostOutput() { SafeSoFar(states, events, i); }
    }
  }

  lemma {:induction false} SafeSoFar(states: seq<Server>, events: seq<Event>, i: nat)
    requires RunOf(states, events) && i < |states| && forall k :: 0 <= k < i ==> SafeStep(states[k], events[k])
    ensures states[i].NoLostOutput()
  {
    hide Step, Enabled, SafeStep, Server.Valid;
    if i > 0 {
      SafeSoFar(states, events, i - 1);
      StepExactly(states[i - 1], events[i - 1]);
    }
  }

  /** What that means for one client: up to the first unsafe step nobody is marked for another's sake; and if it
      has output pending and is not going to be closed, it is in the list of those to be written to, or its
      descriptor is watched. */
  lemma NothingLost(states: seq<Server>, events: seq<Event>, i: nat, id: nat)
    requires RunOf(states, events) && i < |states| && id < |states[i].clients|
    requires forall k :: 0 <= k < i ==> SafeStep(states[k], events[k])
    ensures states[i].wronged == {}
    ensures var s := states[i]; var c := s.clients[id];
            c.fd != -1 && !c.flags.closeAsap && !c.out.NothingPending() ==>
              (c.flags.pendingWrite && id in s.pending) || c.fd in s.writable
  {
    hide Step, Enabled, SafeStep;
    SafeSoFar(states, events, i);
    RunValid(states, events, i);
    assert states[i].Covered(id);
  }
}
